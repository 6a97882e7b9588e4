/** Whole runs of the simple interface: what no sequence of calls can do. */
module AmmRuns {
  import opened Common
  import opened Extents
  import opened ExtentEdits
  import opened AddressMap
  import opened AmmFind
  import opened AmmSimple

  /** What a call did. The ranges of `Freed` and `Protected` end where the call stopped. */
  datatype Event =
    | Allocated(addr: nat, size: nat, prot: Flags, hint: nat)
    | Freed(addr: nat, cut: nat)
    | Protected(addr: nat, cut: nat, prot: Flags)
    | Reserved(addr: nat, eaddr: nat)
    | Nothing

  /** The step of an event from the map v to the map w. */
  ghost predicate Step(v: seq<Extent>, e: Event, w: seq<Extent>) {
    match e
    case Allocated(addr, size, prot, hint) =>
      && Tiles(v, 0, MAXADDR) && size > 0
      && Candidate(v, AllocateQuery(hint, size), addr) && NoneBelow(v, AllocateQuery(hint, size), addr)
      && Overridden(v, w, MAXADDR, addr, addr + size, AllocateFlags(prot))
    case Freed(addr, cut) => Rewritten(v, w, addr, cut, FREE)
    case Protected(addr, cut, prot) => Rewritten(v, w, addr, cut, ProtectFlags(prot))
    case Reserved(addr, eaddr) => Overridden(v, w, MAXADDR, addr, eaddr, RESERVED)
    case Nothing => SameMeaning(v, w, MAXADDR)
  }

  /** vs are the maps before, between and after the events. */
  ghost predicate Run(vs: seq<seq<Extent>>, es: seq<Event>) {
    |vs| == |es| + 1 && forall i: nat {:trigger es[i]} :: i < |es| ==> Step(vs[i], es[i], vs[i + 1])
  }

  ghost predicate Allocates(e: Event, x: nat) {
    e.Allocated? && e.addr <= x < e.addr + e.size
  }

  ghost predicate Frees(e: Event, x: nat) {
    e.Freed? && e.addr <= x < e.cut
  }

  ghost predicate Reserves(e: Event, x: nat) {
    e.Reserved? && e.addr <= x < e.eaddr
  }

  lemma FlagBits(prot: Flags)
    ensures IsAllocated(AllocateFlags(prot)) && IsAllocated(ProtectFlags(prot))
    ensures !IsAllocated(FREE) && !IsAllocated(RESERVED)
  {
  }

  /** What is allocated was free; afterwards it is allocated. */
  lemma AllocationTakesFree(v: seq<Extent>, e: Event, w: seq<Extent>, x: nat)
    requires Step(v, e, w) && Allocates(e, x)
    ensures x < MAXADDR && FlagsAt(v, x) == FREE && IsAllocated(FlagsAt(w, x))
  {
    var q := AllocateQuery(e.hint, e.size);
    SuitsFits(v, q, e.addr);
    assert Match(q, FlagsAt(v, x));
    MatchesFree(q, FlagsAt(v, x));
    FlagBits(e.prot);
  }

  /** What is allocated lies at or above the hint, and in a map without empty entries nothing lower was
      free. */
  lemma AllocatesFromHint(v: seq<Extent>, e: Event, w: seq<Extent>)
    requires Step(v, e, w) && e.Allocated?
    ensures FromHint(e.hint, e.addr) && AllFree(v, e.addr, e.size)
    ensures Solid(v) ==> forall a: nat :: FromHint(e.hint, a) && a < e.addr ==> !AllFree(v, a, e.size)
  {
    CandidateIsFree(v, e.hint, e.size, e.addr);
    if Solid(v) {
      forall a: nat | FromHint(e.hint, a) && a < e.addr ensures !AllFree(v, a, e.size) {
        CandidateIsFree(v, e.hint, e.size, a);
      }
    }
  }

  /** The protection asked for reaches the addresses that are allocated or protected. */
  lemma ProtectionReaches(v: seq<Extent>, e: Event, w: seq<Extent>, x: nat)
    requires Step(v, e, w) && x < MAXADDR
    ensures Allocates(e, x) ==> Protects(FlagsAt(w, x), e.prot)
    ensures e.Protected? && e.addr <= x < e.cut && IsAllocated(FlagsAt(v, x)) ==> Protects(FlagsAt(w, x), e.prot)
  {
    if e.Allocated? { FlagsProtect(e.prot, AllocateFlags(e.prot)); }
    if e.Protected? {
      FlagsProtect(e.prot, ProtectFlags(e.prot));
      assert RewrittenAt(FlagsAt(v, x), FlagsAt(w, x), e.addr <= x < e.cut, ProtectFlags(e.prot));
    }
  }

  /** What is allocated stays so until it is freed or reserved. */
  lemma StaysAllocated(v: seq<Extent>, e: Event, w: seq<Extent>, x: nat)
    requires Step(v, e, w) && x < MAXADDR && IsAllocated(FlagsAt(v, x)) && !Frees(e, x) && !Reserves(e, x)
    ensures IsAllocated(FlagsAt(w, x))
  {
    match e
    case Allocated(addr, size, prot, hint) => FlagBits(prot);
    case Freed(addr, cut) => assert RewrittenAt(FlagsAt(v, x), FlagsAt(w, x), addr <= x < cut, FREE);
    case Protected(addr, cut, prot) =>
      FlagBits(prot);
      assert RewrittenAt(FlagsAt(v, x), FlagsAt(w, x), addr <= x < cut, ProtectFlags(prot));
    case Reserved(addr, eaddr) =>
    case Nothing =>
  }

  /** What is reserved stays so, whatever is called. */
  lemma StaysReserved(v: seq<Extent>, e: Event, w: seq<Extent>, x: nat)
    requires Step(v, e, w) && x < MAXADDR && FlagsAt(v, x) == RESERVED
    ensures FlagsAt(w, x) == RESERVED && !Allocates(e, x)
  {
    FlagBits(0);
    if Allocates(e, x) {
      AllocationTakesFree(v, e, w, x);
      assert false;
    }
    match e
    case Allocated(addr, size, prot, hint) =>
    case Freed(addr, cut) => assert RewrittenAt(FlagsAt(v, x), FlagsAt(w, x), addr <= x < cut, FREE);
    case Protected(addr, cut, prot) =>
      assert RewrittenAt(FlagsAt(v, x), FlagsAt(w, x), addr <= x < cut, ProtectFlags(prot));
    case Reserved(addr, eaddr) =>
    case Nothing =>
  }

  /** After step i the address is reserved for good: it stays so and is never allocated again. */
  lemma {:induction false} ReservedForGood(vs: seq<seq<Extent>>, es: seq<Event>, i: nat, j: nat, x: nat)
    requires Run(vs, es) && i <= j <= |es| && x < MAXADDR && FlagsAt(vs[i], x) == RESERVED
    ensures FlagsAt(vs[j], x) == RESERVED
    ensures j < |es| ==> !Allocates(es[j], x)
    decreases j - i
  {
    if i < j {
      StaysReserved(vs[i], es[i], vs[i + 1], x);
      ReservedForGood(vs, es, i + 1, j, x);
    } else if j < |es| {
      StaysReserved(vs[j], es[j], vs[j + 1], x);
    }
  }

  /** From an allocated address to a free one, some step in between freed the address. */
  lemma {:induction false} FreeAgainMeansFreed(vs: seq<seq<Extent>>, es: seq<Event>, i: nat, j: nat, x: nat)
    returns (k: nat)
    requires Run(vs, es) && i <= j <= |es| && x < MAXADDR
    requires IsAllocated(FlagsAt(vs[i], x)) && FlagsAt(vs[j], x) == FREE
    ensures i <= k < j && Frees(es[k], x) && IsAllocated(FlagsAt(vs[k], x))
    decreases j - i
  {
    FlagBits(0);
    k := i;
    if !Frees(es[i], x) {
      if Reserves(es[i], x) {
        assert Step(vs[i], es[i], vs[i + 1]);
        ReservedForGood(vs, es, i + 1, j, x);
        assert false;
      }
      StaysAllocated(vs[i], es[i], vs[i + 1], x);
      k := FreeAgainMeansFreed(vs, es, i + 1, j, x);
    }
  }

  /** Two allocations in a run overlap only if what they share was freed in between. */
  lemma NoDoubleAllocation(vs: seq<seq<Extent>>, es: seq<Event>, i: nat, j: nat, x: nat) returns (k: nat)
    requires Run(vs, es) && i < j < |es| && Allocates(es[i], x) && Allocates(es[j], x)
    ensures i < k < j && Frees(es[k], x)
  {
    AllocationTakesFree(vs[i], es[i], vs[i + 1], x);
    AllocationTakesFree(vs[j], es[j], vs[j + 1], x);
    k := FreeAgainMeansFreed(vs, es, i + 1, j, x);
  }

  /** In a run from a fresh map, allocations stay inside the bounds given to amm_init. */
  lemma AllocatesWithinBounds(vs: seq<seq<Extent>>, es: seq<Event>, lo: nat, hi: nat, j: nat)
    requires Run(vs, es) && FreeExactly(vs[0], lo, hi) && j < |es| && es[j].Allocated?
    ensures lo <= es[j].addr && es[j].addr + es[j].size <= hi
  {
    assert Step(vs[j], es[j], vs[j + 1]);
    var first, last := es[j].addr, es[j].addr + es[j].size - 1;
    if first < lo { ReservedForGood(vs, es, 0, j, first); assert false; }
    if last >= hi { ReservedForGood(vs, es, 0, j, last); assert false; }
  }

  /** Modifies of ranges that do not overlap commute, down to the entries of the list. */
  lemma ModifiesCommute(v: seq<Extent>, a: nat, b: nat, f: Flags, c: nat, d: nat, g: Flags)
    requires Tiles(v, 0, MAXADDR) && Minimal(v) && a < b <= MAXADDR && c < d <= MAXADDR && (b <= c || d <= a)
    ensures Modified(Once(v, a, b, f), MAXADDR, c, d, g) == Modified(Once(v, c, d, g), MAXADDR, a, b, f)
  {
    ModifiedOverrides(Once(v, a, b, f), MAXADDR, c, d, g);
    ModifiedOverrides(Once(v, c, d, g), MAXADDR, a, b, f);
    ModifiedMinimal(Once(v, a, b, f), MAXADDR, c, d, g);
    ModifiedMinimal(Once(v, c, d, g), MAXADDR, a, b, f);
    var w, w' := Modified(Once(v, a, b, f), MAXADDR, c, d, g), Modified(Once(v, c, d, g), MAXADDR, a, b, f);
    MinimalUnique(w, w', 0, MAXADDR);
  }

  /** A modify of a range that had the flags g is undone by a modify back to g: the very entries
      come back. */
  lemma ModifyUndone(v: seq<Extent>, a: nat, b: nat, f: Flags, g: Flags)
    requires Tiles(v, 0, MAXADDR) && Minimal(v) && a < b <= MAXADDR && (forall x :: a <= x < b ==> FlagsAt(v, x) == g)
    ensures Modified(Once(v, a, b, f), MAXADDR, a, b, g) == v
  {
    ModifiedOverrides(Once(v, a, b, f), MAXADDR, a, b, g);
    ModifiedMinimal(Once(v, a, b, f), MAXADDR, a, b, g);
    MinimalUnique(Modified(Once(v, a, b, f), MAXADDR, a, b, g), v, 0, MAXADDR);
  }

  ghost function Once(v: seq<Extent>, a: nat, b: nat, f: Flags): (w: seq<Extent>)
    requires Tiles(v, 0, MAXADDR) && Minimal(v) && a < b <= MAXADDR
    ensures Tiles(w, 0, MAXADDR) && Minimal(w) && Overridden(v, w, MAXADDR, a, b, f)
  {
    ModifiedOverrides(v, MAXADDR, a, b, f);
    ModifiedMinimal(v, MAXADDR, a, b, f);
    Modified(v, MAXADDR, a, b, f)
  }

  datatype Request =
    | WantAllocate(addr: nat, size: nat, prot: Flags)
    | WantFree(addr: nat, size: nat)
    | WantProtect(addr: nat, size: nat, prot: Flags)
    | WantReserve(addr: nat, size: nat)

  /** The arguments fit their 32-bit types, and a reservation is not of nothing at the end of the space. */
  predicate Proper(r: Request) {
    r.addr < WORD && r.size < WORD && (r.WantReserve? ==> r.addr < MAXADDR || r.size > 0)
  }

  /** What a call returns. */
  datatype Response = Allotted(a: Allocation) | Code(rc: Rc)

  /** The call failed an assertion of the search, or entries ran out in a call that may leave a broken
      list behind. A free or a protect stops halfway and leaves the list whole. */
  predicate Failed(r: Request, resp: Response) {
    match resp
    case Allotted(a) => a.Panicked? || a.OutOfEntries? || a.Invalid?
    case Code(rc) => rc.Enomem? && r.WantReserve?
  }

  /** How far a free or protect goes: all the way, nowhere if the range wraps around, or less far if
      entries run out. */
  predicate Reaches(addr: nat, size: nat, rc: Rc, cut: nat) {
    && (rc.Ok? || rc.Enomem?) && addr <= cut
    && (rc.Ok? && addr + size < WORD ==> cut == addr + size)
    && (rc.Enomem? ==> cut < addr + size < WORD)
    && (addr + size >= WORD ==> rc.Ok? && cut == addr)
  }

  /** e is the event of request r, to which the map v gives the response, and w the map afterwards. */
  ghost predicate Responds(v: seq<Extent>, r: Request, resp: Response, e: Event, w: seq<Extent>) {
    match r
    case WantAllocate(addr, size, prot) =>
      && resp.Allotted? && AllocationMeans(v, AllocateQuery(addr, size), prot, resp.a, w)
      && (resp.a.Placed? ==> e == Allocated(resp.a.addr, size, prot, addr))
      && (!resp.a.Placed? ==> e == Nothing)
    case WantFree(addr, size) =>
      resp.Code? && e.Freed? && e.addr == addr && Reaches(addr, size, resp.rc, e.cut)
    case WantProtect(addr, size, prot) =>
      && resp.Code? && e.Protected? && e.addr == addr && e.prot == prot && Reaches(addr, size, resp.rc, e.cut)
    case WantReserve(addr, size) =>
      && resp.Code? && (resp.rc.Einval? <==> addr + size >= WORD)
      && (resp.rc.Ok? ==> e == Reserved(addr, addr + size))
      && (!resp.rc.Ok? ==> e == Nothing)
  }

  /** The call reserves something if it reserves, and entries do not run out in it. */
  predicate Tidy(r: Request, resp: Response) {
    (r.WantReserve? ==> r.size > 0) && (resp.Code? ==> !resp.rc.Enomem?)
  }

  /** What a call does: its event is that of the request with the result returned, and unless the call
      fails it is a step of a run. A tidy call keeps the map minimal. */
  ghost predicate Performed(v: seq<Extent>, r: Request, resp: Response, e: Event, w: seq<Extent>) {
    && Responds(v, r, resp, e, w)
    && (!Failed(r, resp) ==> Step(v, e, w))
    && (!Failed(r, resp) && Tidy(r, resp) && Minimal(v) ==> Minimal(w))
  }

  method PerformAllocate(amm: Amm, addr: nat, size: nat, prot: Flags) returns (resp: Response, ghost e: Event)
    requires amm.Valid() && addr < WORD && size < WORD
    modifies amm`nodes, amm`spine, amm`repr, amm`hint, amm.repr`next, amm.repr`end, amm.repr`flags
    ensures fresh(amm.repr - old(amm.repr))
    ensures Performed(old(amm.View()), WantAllocate(addr, size, prot), resp, e, amm.View())
    ensures !Failed(WantAllocate(addr, size, prot), resp) ==> amm.Valid()
  {
    var a := Allocate(amm, addr, size, prot);
    resp, e := Allotted(a), Nothing;
    if a.Placed? {
      e := Allocated(a.addr, size, prot, addr);
    }
  }

  method PerformReserve(amm: Amm, addr: nat, size: nat) returns (resp: Response, ghost e: Event)
    requires amm.Valid() && Proper(WantReserve(addr, size))
    modifies amm`nodes, amm`spine, amm`repr, amm`hint, amm.repr`next, amm.repr`end, amm.repr`flags
    ensures fresh(amm.repr - old(amm.repr))
    ensures Performed(old(amm.View()), WantReserve(addr, size), resp, e, amm.View())
    ensures !Failed(WantReserve(addr, size), resp) ==> amm.Valid()
  {
    ghost var v := amm.View();
    var rc := Reserve(amm, addr, size);
    resp := Code(rc);
    e := ReserveIs(v, addr, size, rc, amm.View());
  }

  lemma ReserveIs(v: seq<Extent>, addr: nat, size: nat, rc: Rc, w: seq<Extent>) returns (e: Event)
    requires rc.Einval? <==> addr + size >= WORD
    requires rc.Einval? ==> w == v
    requires rc.Ok? ==> ModifiedTo(v, w, addr, addr + size, RESERVED)
    ensures Performed(v, WantReserve(addr, size), Code(rc), e, w)
  {
    e := Nothing;
    if rc.Ok? {
      e := Reserved(addr, addr + size);
    }
  }

  /** One call on a map. */
  method Perform(amm: Amm, r: Request) returns (resp: Response, ghost e: Event)
    requires amm.Valid() && Proper(r)
    modifies amm`nodes, amm`spine, amm`repr, amm`hint, amm.repr`next, amm.repr`end, amm.repr`flags
    ensures fresh(amm.repr - old(amm.repr))
    ensures Performed(old(amm.View()), r, resp, e, amm.View())
    ensures !Failed(r, resp) ==> amm.Valid()
  {
    ghost var cut;
    var rc;
    match r {
      case WantAllocate(addr, size, prot) => resp, e := PerformAllocate(amm, addr, size, prot);
      case WantFree(addr, size) =>
        rc, cut := Deallocate(amm, addr, size);
        resp, e := Code(rc), Freed(addr, cut);
      case WantProtect(addr, size, prot) =>
        rc, cut := Protect(amm, addr, size, prot);
        resp, e := Code(rc), Protected(addr, cut, prot);
      case WantReserve(addr, size) => resp, e := PerformReserve(amm, addr, size);
    }
  }

  ghost predicate TidyUpTo(rs: seq<Request>, resps: seq<Response>, i: nat)
    requires i <= |resps| <= |rs|
  {
    forall k :: 0 <= k < i ==> Tidy(rs[k], resps[k])
  }

  /** The requests rs were answered with resps along the run vs, es from a map of amm_init. Up to the
      first call that is not tidy the map is minimal. */
  ghost predicate Served(lo: nat, hi: nat, rs: seq<Request>, resps: seq<Response>, vs: seq<seq<Extent>>,
                         es: seq<Event>) {
    && Run(vs, es) && FreeExactly(vs[0], lo, hi) && |resps| == |es| <= |rs|
    && (forall i: nat {:trigger es[i]} :: i < |es| ==>
          Responds(vs[i], rs[i], resps[i], es[i], vs[i + 1]) && !Failed(rs[i], resps[i]))
    && (forall i: nat {:trigger TidyUpTo(rs, resps, i)} :: i <= |es| && TidyUpTo(rs, resps, i) ==> Minimal(vs[i]))
  }

  /** Any sequence of calls on a map from amm_init is a run of the events of these calls, up to the
      first call that fails: the theorems above hold of it. */
  method Serve(lo: nat, hi: nat, rs: seq<Request>)
    returns (started: bool, resps: seq<Response>, failure: Option<Response>, ghost vs: seq<seq<Extent>>,
             ghost es: seq<Event>)
    requires lo < WORD && hi < WORD && forall i :: 0 <= i < |rs| ==> Proper(rs[i])
    ensures started ==> Served(lo, hi, rs, resps, vs, es)
    ensures started && failure.None? ==> |resps| == |rs|
    ensures started && failure.Some? ==> |resps| < |rs| && Failed(rs[|resps|], failure.value)
    ensures started && failure.Some? ==> exists e, w :: Responds(vs[|es|], rs[|es|], failure.value, e, w)
  {
    resps, failure, vs, es := [], None, [], [];
    var amm;
    amm, started := Init(lo, hi);
    if !started {
      return;
    }
    vs := [amm.View()];
    while |resps| < |rs|
      invariant |resps| <= |rs| && failure.None?
      invariant amm.Valid() && fresh(amm) && fresh(amm.repr)
      invariant Served(lo, hi, rs, resps, vs, es) && vs[|es|] == amm.View()
      decreases |rs| - |resps|
    {
      ghost var e;
      var resp;
      label Before:
      resp, e := Perform(amm, rs[|resps|]);
      if Failed(rs[|resps|], resp) {
        failure := Some(resp);
        return;
      }
      forall x: Entry | x in amm.repr ensures !old(allocated(x)) {
        assert x !in old@Before(amm.repr) ==> !old@Before(allocated(x));
      }
      vs, es := ServedNext(lo, hi, rs, resps, vs, es, resp, e, amm.View());
      resps := resps + [resp];
    }
  }

  lemma ServedNext(lo: nat, hi: nat, rs: seq<Request>, resps: seq<Response>, vs: seq<seq<Extent>>, es: seq<Event>,
                   resp: Response, e: Event, w: seq<Extent>)
    returns (vs': seq<seq<Extent>>, es': seq<Event>)
    requires Served(lo, hi, rs, resps, vs, es) && |es| < |rs| && !Failed(rs[|es|], resp)
    requires Performed(vs[|es|], rs[|es|], resp, e, w)
    ensures Served(lo, hi, rs, resps + [resp], vs', es') && |es'| == |es| + 1 && vs'[|es'|] == w
  {
    vs', es' := vs + [w], es + [e];
    var resps' := resps + [resp];
    forall i: nat | i < |es'| ensures Step(vs'[i], es'[i], vs'[i + 1]) {
      if i < |es| { assert Step(vs[i], es[i], vs[i + 1]); }
    }
    forall i: nat | i < |es'|
      ensures Responds(vs'[i], rs[i], resps'[i], es'[i], vs'[i + 1]) && !Failed(rs[i], resps'[i])
    {
      if i < |es| { assert Responds(vs[i], rs[i], resps[i], es[i], vs[i + 1]); }
    }
    forall i: nat | i <= |es'| && TidyUpTo(rs, resps', i) ensures Minimal(vs'[i]) {
      assert forall k :: 0 <= k < i && k < |resps| ==> resps'[k] == resps[k];
      if i <= |es| {
        assert TidyUpTo(rs, resps, i);
      } else {
        assert TidyUpTo(rs, resps, i - 1) && Tidy(rs[|es|], resps'[|es|]);
      }
    }
  }
}
