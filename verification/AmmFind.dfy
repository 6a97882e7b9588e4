/** amm_find_gen: aligned first-fit search for a range whose flags match. */
module AmmFind {
  import opened Common
  import opened Extents
  import opened Alignment
  import opened AddressMap

  /** What is searched: `size` addresses with (flags & mask) == want, at a multiple of 2^bits not
      below `from`. */
  datatype Query = Query(size: nat, want: Flags, mask: Flags, bits: nat, from: nat)

  predicate Match(q: Query, f: Flags) {
    f & q.mask == q.want
  }

  /** The range at a lies in the space and all its addresses match. */
  ghost predicate Fits(v: seq<Extent>, q: Query, a: nat) {
    a + q.size <= MAXADDR && forall x :: a <= x < a + q.size ==> Match(q, FlagsAt(v, x))
  }

  /** The entry overlaps the range at a or, if it is empty, lies inside it. */
  predicate Bears(e: Extent, q: Query, a: nat) {
    e.end > a && e.start < a + q.size
  }

  /** The range at a lies in the space and all entries that bear on it match. */
  ghost predicate Suits(v: seq<Extent>, q: Query, a: nat) {
    a + q.size <= MAXADDR && forall j :: 0 <= j < |v| && Bears(v[j], q, a) ==> Match(q, v[j].flags)
  }

  /** What suits fits. A range that fits does not suit exactly when an empty entry inside it, which a
      modify of an empty range leaves behind, does not match. */
  lemma SuitsFits(v: seq<Extent>, q: Query, a: nat)
    requires Tiles(v, 0, MAXADDR)
    ensures Suits(v, q, a) ==> Fits(v, q, a)
    ensures q.size > 0 && Fits(v, q, a) ==> (!Suits(v, q, a) <==>
      exists j :: 0 <= j < |v| && v[j].start == v[j].end && Bears(v[j], q, a) && !Match(q, v[j].flags))
  {
    if Suits(v, q, a) {
      forall x | a <= x < a + q.size ensures Match(q, FlagsAt(v, x)) {
        var j := IndexOf(v, 0, MAXADDR, x);
        assert Bears(v[j], q, a);
      }
    }
    if q.size > 0 && Fits(v, q, a) {
      forall j: nat | j < |v| && v[j].start < v[j].end && Bears(v[j], q, a) ensures Match(q, v[j].flags) {
        BearingMatches(v, q, a, j);
      }
    }
  }

  lemma BearingMatches(v: seq<Extent>, q: Query, a: nat, j: nat)
    requires Tiles(v, 0, MAXADDR) && j < |v| && v[j].start < v[j].end && Bears(v[j], q, a)
    requires q.size > 0 && Fits(v, q, a)
    ensures Match(q, v[j].flags)
  {
    var x: nat := if a < v[j].start then v[j].start else a;
    FlagsAtEntry(v, 0, MAXADDR, j, x);
    assert Match(q, FlagsAt(v, x));
  }

  /** Without empty entries the two are the same. */
  lemma SolidSuits(v: seq<Extent>, q: Query, a: nat)
    requires Tiles(v, 0, MAXADDR) && Solid(v) && q.size > 0
    ensures Suits(v, q, a) <==> Fits(v, q, a)
  {
    SuitsFits(v, q, a);
  }

  ghost predicate Candidate(v: seq<Extent>, q: Query, a: nat) {
    q.from <= a && a % Pow2(q.bits) == 0 && Suits(v, q, a)
  }

  ghost predicate NoneBelow(v: seq<Extent>, q: Query, addr: nat) {
    forall a: nat :: a < addr ==> !Candidate(v, q, a)
  }

  ghost predicate HasFit(v: seq<Extent>, q: Query) {
    exists a: nat :: Candidate(v, q, a)
  }

  /** The restart of the search after entry i stays inside the 32-bit space. */
  ghost predicate RestartsInside(v: seq<Extent>, q: Query, i: nat)
    requires i < |v|
  {
    v[i].end > q.from && !Match(q, v[i].flags) ==> Align(v[i].end, Pow2(q.bits)) + q.size < WORD
  }

  /** No restart of the search leaves the 32-bit space. The last entry is never restarted from. */
  ghost predicate Safe(v: seq<Extent>, q: Query) {
    forall i: nat {:trigger RestartsInside(v, q, i)} :: i + 1 < |v| ==> RestartsInside(v, q, i)
  }

  /** Entry i does not match, so no range starting before its end, or before the next multiple,
      suits. */
  lemma SkipEntry(v: seq<Extent>, q: Query, i: nat, addr: nat)
    requires i < |v| && !Match(q, v[i].flags)
    requires NoneBelow(v, q, addr) && addr < v[i].end && v[i].start < addr + q.size
    ensures NoneBelow(v, q, Align(v[i].end, Pow2(q.bits)))
  {
    forall a: nat | a < Align(v[i].end, Pow2(q.bits)) ensures !Candidate(v, q, a) {
      if addr <= a < v[i].end { assert Bears(v[i], q, a); }
    }
  }

  /** A restart that leaves the space means that nothing suits. */
  lemma WrapMeansNoFit(v: seq<Extent>, q: Query, addr: nat)
    requires NoneBelow(v, q, addr) && addr + q.size >= WORD
    ensures !HasFit(v, q)
  {
    forall a: nat ensures !Candidate(v, q, a) {
      if a >= addr { assert a + q.size > MAXADDR; }
    }
  }

  /** How the search ends: at an address, with nothing, or in a failed assertion. */
  datatype Outcome = Found(addr: nat) | NotFound | AssertFailed

  /** The entries before entry i that do not end at or below addr match. */
  ghost predicate MatchedUpTo(v: seq<Extent>, q: Query, addr: nat, i: nat)
    requires i <= |v|
  {
    forall j :: 0 <= j < i && v[j].end > addr ==> Match(q, v[j].flags)
  }

  /** Where the search stands in front of entry i, as long as no restart has left the space: nothing
      below addr suits, and everything from addr to the entry matches. */
  ghost predicate Searching(v: seq<Extent>, q: Query, i: nat, addr: nat) {
    && i < |v|
    && q.from <= addr && addr + q.size < WORD && addr % Pow2(q.bits) == 0
    && NoneBelow(v, q, addr) && MatchedUpTo(v, q, addr, i) && v[i].start < addr + q.size
    && (forall j: nat {:trigger RestartsInside(v, q, j)} :: j < i ==> RestartsInside(v, q, j))
  }

  /** Where the search stands after an entry that ends at or below addr. */
  lemma StepPast(v: seq<Extent>, q: Query, i: nat, addr: nat)
    requires Tiles(v, 0, MAXADDR) && Searching(v, q, i, addr) && q.size > 0 && addr >= v[i].end
    ensures Searching(v, q, i + 1, addr)
  {
    if i + 1 == |v| { assert false; }
    assert Meets(v, i);
    AlignBelow(v[i].end, addr, q.bits);
  }

  lemma AlignBelow(a: nat, m: nat, bits: nat)
    requires a <= m && m % Pow2(bits) == 0
    ensures Align(a, Pow2(bits)) <= m
  {
  }

  /** Where the search stands after a matching entry that does not reach the end of the range. */
  lemma StepMatched(v: seq<Extent>, q: Query, i: nat, addr: nat)
    requires Tiles(v, 0, MAXADDR) && Searching(v, q, i, addr) && addr < v[i].end
    requires Match(q, v[i].flags) && addr + q.size > v[i].end
    ensures Searching(v, q, i + 1, addr)
  {
    if i + 1 == |v| { assert false; }
    assert Meets(v, i);
  }

  /** Where the search stands after an entry that does not match. */
  lemma StepRestart(v: seq<Extent>, q: Query, i: nat, addr: nat)
    requires Tiles(v, 0, MAXADDR) && Searching(v, q, i, addr) && q.size > 0 && q.bits < 32
    requires addr < v[i].end && !Match(q, v[i].flags)
    ensures i + 1 < |v| && RestartsInside(v, q, i) ==> Searching(v, q, i + 1, Align32(v[i].end, q.bits))
    ensures i + 1 < |v| && !RestartsInside(v, q, i) ==> !HasFit(v, q) && !Safe(v, q)
    ensures i + 1 == |v| ==> !HasFit(v, q) && Safe(v, q)
  {
    SkipEntry(v, q, i, addr);
    EndsBelow(v, 0, MAXADDR, i);
    var next := Align(v[i].end, Pow2(q.bits));
    if i + 1 < |v| {
      assert Meets(v, i);
      if !RestartsInside(v, q, i) {
        WrapMeansNoFit(v, q, next);
      } else {
        EarlierEndBelow(v, i, next);
      }
    } else {
      forall a: nat ensures !Candidate(v, q, a) {
        assert a >= next ==> a + q.size > MAXADDR;
      }
    }
  }

  lemma EarlierEndBelow(v: seq<Extent>, i: nat, addr: nat)
    requires Tiles(v, 0, MAXADDR) && i < |v| && v[i].end <= addr
    ensures forall j :: 0 <= j <= i ==> v[j].end <= addr
  {
    forall j | 0 <= j < i ensures v[j].end <= addr { Ordered(v, 0, MAXADDR, j, i); }
  }

  /** The first position of a search that passes the source's opening assertions. */
  lemma StartSearch(v: seq<Extent>, q: Query, i: nat)
    requires Tiles(v, 0, MAXADDR) && i < |v| && Covers(v[i], q.from)
    requires q.size > 0 && q.from + q.size < WORD && q.from % Pow2(q.bits) == 0
    ensures Searching(v, q, i, q.from)
  {
    forall j: nat | j < i ensures v[j].end <= q.from { Ordered(v, 0, MAXADDR, j, i); }
    forall j: nat | j < i ensures RestartsInside(v, q, j) {
    }
  }

  /** A search that reaches the end of its range has its answer. */
  lemma Finish(v: seq<Extent>, q: Query, i: nat, addr: nat)
    requires Tiles(v, 0, MAXADDR) && Searching(v, q, i, addr) && Match(q, v[i].flags) && addr + q.size <= v[i].end
    ensures Candidate(v, q, addr) && NoneBelow(v, q, addr) && HasFit(v, q)
  {
    EndsBelow(v, 0, MAXADDR, i);
    forall j | 0 <= j < |v| && Bears(v[j], q, addr) ensures Match(q, v[j].flags) {
      if j > i { Ordered(v, 0, MAXADDR, i, j); }
    }
    assert Candidate(v, q, addr);
  }

  /** When a restart leaves the space, the end of the range falls before the next entry. */
  lemma WrapFallsShort(end: nat, q: Query)
    requires end < WORD && q.bits < 32 && q.size + Pow2(q.bits) <= WORD && q.size < WORD
    requires Align(end, Pow2(q.bits)) + q.size >= WORD
    ensures Wrap(Align32(end, q.bits) + q.size) < end
  {
    AlignLandsInSpace(end, q.bits);
  }

  /** What the search promises about its outcome. */
  ghost predicate Answers(v: seq<Extent>, q: Query, out: Outcome) {
    && (HasFit(v, q) ==> out.Found? && Candidate(v, q, out.addr) && NoneBelow(v, q, out.addr))
    && (!HasFit(v, q) && Safe(v, q) ==> out.NotFound?)
    && (!HasFit(v, q) && !Safe(v, q) && q.size + Pow2(q.bits) <= WORD ==> out.AssertFailed?)
  }

  /** What the outcome of a scan means, for an exact search and for one that may move on. */
  ghost predicate Settles(v: seq<Extent>, q: Query, exact: bool, out: Outcome) {
    && (!exact ==> Answers(v, q, out))
    && (exact && Suits(v, q, q.from) ==> out == Found(q.from))
    && (exact && !Suits(v, q, q.from) ==> out.NotFound?)
  }

  /** Where a scan stands in front of entry i: still searching, past the last entry without a
      restart outside the space, or lost after such a restart. */
  ghost predicate Stands(v: seq<Extent>, q: Query, exact: bool, i: nat, addr: nat, eaddr: nat, lost: bool) {
    && i <= |v| && addr < WORD
    && (exact ==> addr == q.from && !lost && i < |v|)
    && (lost ==> !HasFit(v, q) && !Safe(v, q))
    && (lost && q.size + Pow2(q.bits) <= WORD ==> i < |v| && eaddr < v[i].start)
    && (!lost && i == |v| ==> !HasFit(v, q) && Safe(v, q))
    && (!lost && i < |v| ==> Searching(v, q, i, addr) && eaddr == addr + q.size)
  }

  /** The same query context for all steps. */
  ghost predicate Scannable(v: seq<Extent>, q: Query) {
    Tiles(v, 0, MAXADDR) && 0 < q.size < WORD && q.bits < 32 && q.from < WORD
  }

  lemma StandsShort(v: seq<Extent>, q: Query, exact: bool, i: nat, addr: nat, eaddr: nat, lost: bool)
    requires Scannable(v, q) && Stands(v, q, exact, i, addr, eaddr, lost) && i < |v| && eaddr < v[i].start
    ensures Settles(v, q, exact, AssertFailed)
  {
  }

  lemma StandsPast(v: seq<Extent>, q: Query, exact: bool, i: nat, addr: nat, eaddr: nat, lost: bool)
    requires Scannable(v, q) && Stands(v, q, exact, i, addr, eaddr, lost)
    requires i < |v| && v[i].start <= eaddr && addr >= v[i].end
    ensures Stands(v, q, exact, i + 1, addr, eaddr, lost)
  {
    if !lost { StepPast(v, q, i, addr); }
  }

  lemma StandsMatched(v: seq<Extent>, q: Query, exact: bool, i: nat, addr: nat, eaddr: nat, lost: bool)
    requires Scannable(v, q) && Stands(v, q, exact, i, addr, eaddr, lost)
    requires i < |v| && v[i].start <= eaddr && addr < v[i].end && Match(q, v[i].flags) && eaddr > v[i].end
    ensures Stands(v, q, exact, i + 1, addr, eaddr, lost)
  {
    if !lost { StepMatched(v, q, i, addr); }
  }

  lemma StandsRestarted(v: seq<Extent>, q: Query, i: nat, addr: nat, eaddr: nat, lost: bool) returns (lost': bool)
    requires Scannable(v, q) && Stands(v, q, false, i, addr, eaddr, lost)
    requires i < |v| && v[i].start <= eaddr && addr < v[i].end && !Match(q, v[i].flags)
    ensures v[i].end < WORD
    ensures var addr' := Align32(v[i].end, q.bits); Stands(v, q, false, i + 1, addr', Wrap(addr' + q.size), lost')
  {
    EndsBelow(v, 0, MAXADDR, i);
    lost' := lost;
    if !lost {
      StepRestart(v, q, i, addr);
      lost' := i + 1 < |v| && !RestartsInside(v, q, i);
      if lost' && q.size + Pow2(q.bits) <= WORD {
        WrapFallsShort(v[i].end, q);
        assert Meets(v, i);
      }
    }
  }

  lemma StandsFound(v: seq<Extent>, q: Query, exact: bool, i: nat, addr: nat, eaddr: nat, lost: bool)
    requires Scannable(v, q) && Stands(v, q, exact, i, addr, eaddr, lost)
    requires i < |v| && v[i].start <= eaddr && addr < v[i].end && Match(q, v[i].flags) && eaddr <= v[i].end
    ensures Settles(v, q, exact, Found(addr))
  {
    if !lost { Finish(v, q, i, addr); }
  }

  lemma StandsExactMiss(v: seq<Extent>, q: Query, i: nat, addr: nat, eaddr: nat)
    requires Scannable(v, q) && Stands(v, q, true, i, addr, eaddr, false)
    requires i < |v| && addr < v[i].end && !Match(q, v[i].flags)
    ensures Settles(v, q, true, NotFound)
  {
    assert Bears(v[i], q, q.from);
  }

  /** What one entry of the scan decides: go on with the given bounds, or stop. */
  datatype Verdict = Onward(addr: nat, eaddr: nat) | Stop(out: Outcome)

  /** The body of the loop of amm_find_gen for one entry. */
  function Judged(x: Extent, q: Query, exact: bool, addr: nat, eaddr: nat): Verdict
    requires x.end < WORD && q.bits < 32 && q.size < WORD
  {
    if eaddr < x.start then Stop(AssertFailed)
    else if addr >= x.end then Onward(addr, eaddr)
    else if !Match(q, x.flags) then
      if exact then Stop(NotFound)
      else var next := Align32(x.end, q.bits); Onward(next, Wrap(next + q.size))
    else if eaddr <= x.end then Stop(Found(addr))
    else Onward(addr, eaddr)
  }

  /** The loop of amm_find_gen from entry i on. */
  ghost function Walk(v: seq<Extent>, q: Query, exact: bool, i: nat, addr: nat, eaddr: nat): Outcome
    requires Tiles(v, 0, MAXADDR) && i <= |v| && q.bits < 32 && q.size < WORD
    decreases |v| - i
  {
    if i == |v| then NotFound
    else
      EndsBelow(v, 0, MAXADDR, i);
      var verdict := Judged(v[i], q, exact, addr, eaddr);
      if verdict.Stop? then verdict.out else Walk(v, q, exact, i + 1, verdict.addr, verdict.eaddr)
  }

  /** The search starts anew behind the entry. */
  predicate Restarts(x: Extent, q: Query, exact: bool, addr: nat, eaddr: nat) {
    x.start <= eaddr && addr < x.end && !Match(q, x.flags) && !exact
  }

  /** The entry that the loop returns, from entry i on: m, the one in which the search started last. */
  ghost function WalkEntry(v: seq<Extent>, q: Query, exact: bool, i: nat, addr: nat, eaddr: nat, m: nat): nat
    requires Tiles(v, 0, MAXADDR) && i <= |v| && q.bits < 32 && q.size < WORD
    decreases |v| - i
  {
    if i == |v| then m
    else
      EndsBelow(v, 0, MAXADDR, i);
      var verdict := Judged(v[i], q, exact, addr, eaddr);
      if verdict.Stop? then m
      else
        var m' := if Restarts(v[i], q, exact, addr, eaddr) then i + 1 else m;
        WalkEntry(v, q, exact, i + 1, verdict.addr, verdict.eaddr, m')
  }

  /** An entry that stops the search decides it rightly. */
  lemma StopsRightly(v: seq<Extent>, q: Query, exact: bool, i: nat, addr: nat, eaddr: nat, lost: bool)
    requires Scannable(v, q) && i < |v| && Stands(v, q, exact, i, addr, eaddr, lost)
    requires v[i].end < WORD && Judged(v[i], q, exact, addr, eaddr).Stop?
    ensures Settles(v, q, exact, Judged(v[i], q, exact, addr, eaddr).out)
  {
    if eaddr < v[i].start {
      StandsShort(v, q, exact, i, addr, eaddr, lost);
    } else if !Match(q, v[i].flags) {
      StandsExactMiss(v, q, i, addr, eaddr);
    } else {
      StandsFound(v, q, exact, i, addr, eaddr, lost);
    }
  }

  /** An entry that does not stop the search leaves it where it should stand. */
  lemma GoesOnRightly(v: seq<Extent>, q: Query, exact: bool, i: nat, addr: nat, eaddr: nat, lost: bool)
    returns (lost': bool)
    requires Scannable(v, q) && i < |v| && Stands(v, q, exact, i, addr, eaddr, lost)
    requires v[i].end < WORD && Judged(v[i], q, exact, addr, eaddr).Onward?
    ensures var next := Judged(v[i], q, exact, addr, eaddr); Stands(v, q, exact, i + 1, next.addr, next.eaddr, lost')
  {
    lost' := lost;
    if addr >= v[i].end {
      StandsPast(v, q, exact, i, addr, eaddr, lost);
    } else if !Match(q, v[i].flags) {
      lost' := StandsRestarted(v, q, i, addr, eaddr, lost);
    } else {
      StandsMatched(v, q, exact, i, addr, eaddr, lost);
    }
  }

  /** The loop decides the search rightly. */
  lemma {:induction false} WalksRightly(v: seq<Extent>, q: Query, exact: bool, i: nat, addr: nat, eaddr: nat,
                                        lost: bool)
    requires Scannable(v, q) && Stands(v, q, exact, i, addr, eaddr, lost)
    ensures Settles(v, q, exact, Walk(v, q, exact, i, addr, eaddr))
    decreases |v| - i
  {
    if i < |v| {
      EndsBelow(v, 0, MAXADDR, i);
      var verdict := Judged(v[i], q, exact, addr, eaddr);
      if verdict.Stop? {
        StopsRightly(v, q, exact, i, addr, eaddr, lost);
      } else {
        var lost' := GoesOnRightly(v, q, exact, i, addr, eaddr, lost);
        WalksRightly(v, q, exact, i + 1, verdict.addr, verdict.eaddr, lost');
      }
    }
  }

  /** The loop that started at entry k has come to entry i, with m as the entry to return. */
  ghost predicate WalkedTo(v: seq<Extent>, q: Query, exact: bool, k: nat, i: nat, addr: nat, eaddr: nat, m: nat) {
    && Scannable(v, q) && k <= |v| && i <= |v|
    && Walk(v, q, exact, i, addr, eaddr) == Walk(v, q, exact, k, q.from, q.from + q.size)
    && WalkEntry(v, q, exact, i, addr, eaddr, m) == WalkEntry(v, q, exact, k, q.from, q.from + q.size, k)
  }

  lemma WalkOn(v: seq<Extent>, q: Query, exact: bool, k: nat, i: nat, addr: nat, eaddr: nat, m: nat)
    requires WalkedTo(v, q, exact, k, i, addr, eaddr, m) && i < |v|
    ensures v[i].end < WORD
    ensures var verdict := Judged(v[i], q, exact, addr, eaddr);
      && (verdict.Stop? ==> Walk(v, q, exact, k, q.from, q.from + q.size) == verdict.out)
      && (verdict.Stop? ==> WalkEntry(v, q, exact, k, q.from, q.from + q.size, k) == m)
      && (verdict.Onward? ==> WalkedTo(v, q, exact, k, i + 1, verdict.addr, verdict.eaddr,
                                       if Restarts(v[i], q, exact, addr, eaddr) then i + 1 else m))
  {
    EndsBelow(v, 0, MAXADDR, i);
  }

  /** The loop of amm_find_gen over the linked list, from the entry that covers the first address on:
      the outcome, the entry in which the search started last and the link to the one that decided it. */
  method ScanFrom(amm: Amm, plink: Link, first: Entry, q: Query, exact: bool, ghost v: seq<Extent>, ghost k: nat)
    returns (out: Outcome, sentry: Entry?, pentry: Link, ghost i: nat)
    requires amm.Valid() && v == amm.View() && Scannable(v, q) && k < |v| && first == amm.spine[k]
    requires plink == amm.LinkAt(k)
    ensures out == Walk(v, q, exact, k, q.from, q.from + q.size)
    ensures out.Found? ==> i < |v| && pentry == amm.LinkAt(i) && out.addr < MAXADDR
    ensures out.Found? ==>
      var m := WalkEntry(v, q, exact, k, q.from, q.from + q.size, k); m < |amm.spine| && sentry == amm.spine[m]
  {
    var addr: nat, eaddr: nat := q.from, q.from + q.size;
    var entry: Entry? := first;
    sentry, pentry, i := first, plink, k;
    ghost var m: nat := k;
    while entry != null
      invariant WalkedTo(v, q, exact, k, i, addr, eaddr, m)
      invariant entry == null <==> i == |v|
      invariant i < |v| ==> entry == amm.spine[i] && pentry == amm.LinkAt(i)
      invariant m <= i && (m < |v| ==> sentry == amm.spine[m])
      decreases |v| - i
    {
      amm.NextAt(i);
      var x := entry.Extent();
      assert v[i] == x;
      WalkOn(v, q, exact, k, i, addr, eaddr, m);
      var verdict, restarts := Judged(x, q, exact, addr, eaddr), Restarts(x, q, exact, addr, eaddr);
      if verdict.Stop? {
        return verdict.out, sentry, pentry, i;
      }
      m := if restarts then i + 1 else m;
      sentry := if restarts then entry.next else sentry;
      addr, eaddr := verdict.addr, verdict.eaddr;
      pentry, entry, i := NextOf(entry), entry.next, i + 1;
    }
    return NotFound, null, pentry, i;
  }

  /** amm_find_gen as a function of the map: the opening assertions, then the loop from the entry that
      covers the first address. */
  ghost function Scan(v: seq<Extent>, q: Query, exact: bool): Outcome
    requires Tiles(v, 0, MAXADDR) && q.bits < 32 && q.size < WORD
  {
    if q.size == 0 || q.from + q.size >= WORD then AssertFailed
    else Walk(v, q, exact, IndexOf(v, 0, MAXADDR, q.from), q.from, q.from + q.size)
  }

  /** A search from a multiple of its unit. */
  ghost predicate Searchable(v: seq<Extent>, q: Query) {
    Tiles(v, 0, MAXADDR) && q.bits < 32 && q.size < WORD && q.from % Pow2(q.bits) == 0
  }

  lemma ScansRightly(v: seq<Extent>, q: Query, exact: bool)
    requires Searchable(v, q) && 0 < q.size && q.from + q.size < WORD
    ensures Settles(v, q, exact, Scan(v, q, exact))
  {
    var k := IndexOf(v, 0, MAXADDR, q.from);
    StartSearch(v, q, k);
    WalksRightly(v, q, exact, k, q.from, q.from + q.size, false);
  }

  /** No search of this size and alignment ever finds an address that does not suit. */
  ghost predicate Trusted(size: nat, bits: nat)
    requires bits < 32 && size < WORD
  {
    forall v: seq<Extent>, q: Query {:trigger Searchable(v, q)} ::
      Searchable(v, q) && q.size == size && q.bits == bits ==> FindsSuiting(v, q)
  }

  ghost predicate FindsSuiting(v: seq<Extent>, q: Query)
    requires Searchable(v, q)
  {
    Scan(v, q, false).Found? ==> Candidate(v, q, Scan(v, q, false).addr)
  }

  lemma RoomToRound(v: seq<Extent>, q: Query)
    requires Searchable(v, q) && q.size + Pow2(q.bits) <= WORD
    ensures FindsSuiting(v, q)
  {
    if 0 < q.size && q.from + q.size < WORD { ScansRightly(v, q, false); }
  }

  /** A map and a search that goes wrong: rounding up past the end of the first entry wraps to zero,
      and the range from there ends in the second entry, which matches. */
  lemma WrapMisleads(size: nat, bits: nat) returns (v: seq<Extent>, q: Query)
    requires bits < 32 && size < WORD && size + Pow2(bits) > WORD
    ensures Searchable(v, q) && q.size == size && q.bits == bits
    ensures Scan(v, q, false) == Found(0) && !Suits(v, q, 0) && !HasFit(v, q)
  {
    MaskOfUnits(0, bits);
    var p: nat := WORD - Pow2(bits) + 1;
    q := Query(size, 0, 0xFFFF_FFFF, bits, 0);
    v := [Extent(0, p, 1), Extent(p, MAXADDR, 0)];
    MisledRestart(p, bits);
    assert Meets(v, 0);
    MisledWalk(v, q, p);
  }

  /** Rounding p up gives the end of the space. */
  lemma MisledRestart(p: nat, bits: nat)
    requires bits < 32 && p == WORD - Pow2(bits) + 1 && p < WORD
    ensures Align(p, Pow2(bits)) == WORD && Align32(p, bits) == 0
  {
    Pow2Of32();
    Pow2Split(bits, 32);
    AlignToEnd(p, Pow2(bits), Pow2(32 - bits));
  }

  lemma MisledWalk(v: seq<Extent>, q: Query, p: nat)
    requires q == Query(q.size, 0, 0xFFFF_FFFF, q.bits, 0) && q.bits < 32 && 0 < p <= q.size < WORD
    requires v == [Extent(0, p, 1), Extent(p, MAXADDR, 0)] && Tiles(v, 0, MAXADDR)
    requires Align(p, Pow2(q.bits)) == WORD && Align32(p, q.bits) == 0
    ensures Scan(v, q, false) == Found(0) && !Suits(v, q, 0) && !HasFit(v, q)
  {
    assert Bears(v[0], q, 0) && !Match(q, v[0].flags) && Match(q, v[1].flags);
    var k := IndexOf(v, 0, MAXADDR, 0);
    assert k == 0;
    assert Judged(v[0], q, false, 0, q.size) == Onward(0, q.size);
    assert Judged(v[1], q, false, 0, q.size) == Stop(Found(0));
    assert Walk(v, q, false, 1, 0, q.size) == Found(0);
    assert NoneBelow(v, q, 0);
    SkipEntry(v, q, 0, 0);
    WrapMeansNoFit(v, q, WORD);
  }

  /** The search never finds an address that does not suit, exactly when the size and one unit of
      alignment fit in the 32-bit space together. */
  lemma TrustedIff(size: nat, bits: nat)
    requires bits < 32 && size < WORD
    ensures Trusted(size, bits) <==> size + Pow2(bits) <= WORD
  {
    if size + Pow2(bits) <= WORD {
      forall v: seq<Extent>, q: Query | Searchable(v, q) && q.size == size && q.bits == bits
        ensures FindsSuiting(v, q)
      {
        RoomToRound(v, q);
      }
    } else {
      var v, q := WrapMisleads(size, bits);
      assert !FindsSuiting(v, q);
    }
  }

  /** The entry that amm_find_gen returns beside the address. */
  ghost function ScanEntry(v: seq<Extent>, q: Query, exact: bool): nat
    requires Tiles(v, 0, MAXADDR) && q.bits < 32 && q.from + q.size < WORD && q.size > 0
  {
    var k := IndexOf(v, 0, MAXADDR, q.from);
    WalkEntry(v, q, exact, k, q.from, q.from + q.size, k)
  }

  /** The entry returned covers the address found, as the interface promises. */
  ghost predicate EntryCovers(v: seq<Extent>, q: Query, exact: bool)
    requires Tiles(v, 0, MAXADDR) && q.bits < 32 && q.size < WORD
  {
    var out := Scan(v, q, exact);
    out.Found? ==> ScanEntry(v, q, exact) < |v| && Covers(v[ScanEntry(v, q, exact)], out.addr)
  }

  lemma {:induction false} WalkCovers(v: seq<Extent>, q: Query, exact: bool, i: nat, addr: nat, eaddr: nat, m: nat)
    requires Scannable(v, q) && i <= |v| && m < |v| && Covers(v[m], addr) && (exact || (Solid(v) && q.bits == 0))
    requires Walk(v, q, exact, i, addr, eaddr).Found?
    ensures WalkEntry(v, q, exact, i, addr, eaddr, m) < |v|
    ensures Covers(v[WalkEntry(v, q, exact, i, addr, eaddr, m)], Walk(v, q, exact, i, addr, eaddr).addr)
    decreases |v| - i
  {
    if i < |v| {
      EndsBelow(v, 0, MAXADDR, i);
      var verdict := Judged(v[i], q, exact, addr, eaddr);
      if verdict.Onward? {
        if Restarts(v[i], q, exact, addr, eaddr) {
          assert Pow2(0) == 1;
          if i + 1 < |v| {
            assert Meets(v, i);
            WalkCovers(v, q, exact, i + 1, verdict.addr, verdict.eaddr, i + 1);
          }
        } else {
          WalkCovers(v, q, exact, i + 1, verdict.addr, verdict.eaddr, m);
        }
      }
    }
  }

  /** The entry returned covers the address for an exact search, and for one without alignment in a map
      without empty entries. */
  lemma ReturnsCovering(v: seq<Extent>, q: Query, exact: bool)
    requires Searchable(v, q) && (exact || (Solid(v) && q.bits == 0))
    ensures EntryCovers(v, q, exact)
  {
    if 0 < q.size && q.from + q.size < WORD && Scan(v, q, exact).Found? {
      var k := IndexOf(v, 0, MAXADDR, q.from);
      WalkCovers(v, q, exact, k, q.from, q.from + q.size, k);
    }
  }

  /** Whether searches of an alignment in maps without empty entries return a covering entry. */
  ghost predicate ReturnsCover(bits: nat)
    requires bits < 32
  {
    forall v: seq<Extent>, q: Query {:trigger Searchable(v, q)} ::
      Searchable(v, q) && Solid(v) && q.bits == bits ==> EntryCovers(v, q, false)
  }

  /** For every alignment a map and a search that returns an entry in front of the address: the search
      restarts behind the first entry, and rounding up leads past the second. */
  lemma AlignmentLeavesEntry(bits: nat) returns (v: seq<Extent>, q: Query)
    requires 0 < bits < 32
    ensures Searchable(v, q) && Solid(v) && q.bits == bits && !EntryCovers(v, q, false)
  {
    v := [Extent(0, 1, 1), Extent(1, 2, 0), Extent(2, MAXADDR, 0)];
    q := Query(1, 0, 0xFFFF_FFFF, bits, 0);
    assert Meets(v, 0) && Meets(v, 1);
    UnitInSpace(bits);
    FirstMultiple(Pow2(bits));
    PastSecond(v, q, Pow2(bits));
  }

  lemma FirstMultiple(u: nat)
    requires u > 1
    ensures Align(1, u) == u
  {
    ModOf(u, u, 1, 0);
    var r := Align(1, u);
    if r < u { ModOf(r, u, 0, r); }
  }

  lemma PastSecond(v: seq<Extent>, q: Query, u: nat)
    requires v == [Extent(0, 1, 1), Extent(1, 2, 0), Extent(2, MAXADDR, 0)] && Tiles(v, 0, MAXADDR)
    requires q == Query(1, 0, 0xFFFF_FFFF, q.bits, 0) && q.bits < 32 && 2 <= u == Align32(1, q.bits) && u + 1 <= MAXADDR
    ensures !EntryCovers(v, q, false)
  {
    var k := IndexOf(v, 0, MAXADDR, 0);
    assert k == 0;
    assert Judged(v[0], q, false, 0, 1) == Onward(u, u + 1);
    assert Judged(v[1], q, false, u, u + 1) == Onward(u, u + 1);
    assert Judged(v[2], q, false, u, u + 1) == Stop(Found(u));
    assert Walk(v, q, false, 2, u, u + 1) == Found(u) && WalkEntry(v, q, false, 2, u, u + 1, 1) == 1;
    assert Walk(v, q, false, 1, u, u + 1) == Found(u) && WalkEntry(v, q, false, 1, u, u + 1, 1) == 1;
    assert Walk(v, q, false, 0, 0, 1) == Found(u) && WalkEntry(v, q, false, 0, 0, 1, 0) == 1;
  }

  /** An empty entry behind a restart is returned too. */
  lemma EmptyEntryReturned(v: seq<Extent>, q: Query)
    requires v == [Extent(0, 5, 1), Extent(5, 5, 0), Extent(5, MAXADDR, 0)] && q == Query(1, 0, 0xFFFF_FFFF, 0, 0)
    ensures Searchable(v, q) && Scan(v, q, false) == Found(5) && !EntryCovers(v, q, false)
  {
    assert Meets(v, 0) && Meets(v, 1);
    assert Pow2(0) == 1;
    assert IndexOf(v, 0, MAXADDR, 0) == 0;
    assert Walk(v, q, false, 2, 5, 6) == Found(5) && WalkEntry(v, q, false, 2, 5, 6, 1) == 1;
    assert Walk(v, q, false, 1, 5, 6) == Found(5) && WalkEntry(v, q, false, 1, 5, 6, 1) == 1;
    assert Walk(v, q, false, 0, 0, 1) == Found(5) && WalkEntry(v, q, false, 0, 0, 1, 0) == 1;
  }

  /** Searches of an alignment always return a covering entry exactly when there is no alignment. */
  lemma ReturnsCoverIff(bits: nat)
    requires bits < 32
    ensures ReturnsCover(bits) <==> bits == 0
  {
    if bits == 0 {
      forall v: seq<Extent>, q: Query | Searchable(v, q) && Solid(v) && q.bits == bits
        ensures EntryCovers(v, q, false)
      {
        ReturnsCovering(v, q, false);
      }
    } else {
      var v, q := AlignmentLeavesEntry(bits);
      assert !EntryCovers(v, q, false);
    }
  }

  /** The search after the opening assertions; the hint moves to the entry it ends in. */
  method FindFrom(amm: Amm, q: Query, exact: bool) returns (out: Outcome, entry: Entry?)
    requires amm.Valid() && q.bits < 32 && 0 < q.size && q.from + q.size < WORD
    modifies amm`hint
    ensures amm.Valid() && amm.View() == old(amm.View()) && out == Scan(amm.View(), q, exact)
    ensures out.Found? ==> out.addr < MAXADDR && Returned(amm, entry, ScanEntry(amm.View(), q, exact))
    ensures !out.Found? ==> entry == null
  {
    ghost var v := amm.View();
    var first, pentry;
    ghost var k, i;
    first, k := amm.FindAddr(q.from);
    out, entry, pentry, i := ScanFrom(amm, amm.hint, first, q, exact, v, k);
    assert out == Scan(v, q, exact);
    if out.Found? {
      amm.SetHint(pentry, i);
    } else {
      entry := null;
    }
    assert amm.View() == v;
  }

  ghost predicate Returned(amm: Amm, entry: Entry?, m: nat)
    reads amm`spine
  {
    m < |amm.spine| && entry == amm.spine[m]
  }

  /** amm_find_gen with AMM_FORWARD, first fit and a zero alignment offset. */
  method FindGen(amm: Amm, hintAddr: nat, size: nat, flags: Flags, flagmask: Flags, bits: nat, exact: bool)
    returns (out: Outcome, entry: Entry?)
    requires amm.Valid() && hintAddr < WORD && size < WORD && bits < 32
    modifies amm`hint
    ensures amm.Valid() && amm.View() == old(amm.View())
    ensures Sought(amm.View(), Query(size, flags, flagmask, bits, Align32(hintAddr, bits)), exact, out)
    ensures out.Found? ==> size > 0 && Align32(hintAddr, bits) + size < WORD && out.addr < MAXADDR
    ensures out.Found? ==>
      var q := Query(size, flags, flagmask, bits, Align32(hintAddr, bits));
      Returned(amm, entry, ScanEntry(amm.View(), q, exact))
    ensures !out.Found? ==> entry == null
  {
    var q := Query(size, flags, flagmask, bits, Align32(hintAddr, bits));
    var eaddr := Wrap(q.from + size);
    if size == 0 || q.from >= eaddr {
      return AssertFailed, null;
    }
    out, entry := FindFrom(amm, q, exact);
    ScansRightly(amm.View(), q, exact);
  }

  /** out is the outcome of the search, and what it means. */
  ghost predicate Sought(v: seq<Extent>, q: Query, exact: bool, out: Outcome) {
    && Searchable(v, q) && out == Scan(v, q, exact)
    && (q.size == 0 || q.from + q.size >= WORD ==> out.AssertFailed?)
    && (q.size > 0 && q.from + q.size < WORD ==> Settles(v, q, exact, out))
  }
}
