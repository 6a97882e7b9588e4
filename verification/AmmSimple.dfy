/** The simple interface of the address map manager: amm_init, amm_allocate, amm_deallocate,
    amm_protect, amm_reserve and amm_select. */
module AmmSimple {
  import opened Common
  import opened Extents
  import opened ExtentEdits
  import opened Alignment
  import opened AddressMap
  import opened AmmFind

  predicate IsAllocated(f: Flags) {
    f & ALLOCATED == ALLOCATED
  }

  /** `w` means what `v` means, with the allocated addresses of [lo, cut) set to t. */
  ghost predicate Rewritten(v: seq<Extent>, w: seq<Extent>, lo: nat, cut: nat, t: Flags) {
    forall a {:trigger FlagsAt(w, a)} :: 0 <= a < MAXADDR ==>
      RewrittenAt(FlagsAt(v, a), FlagsAt(w, a), lo <= a < cut, t)
  }

  predicate RewrittenAt(f: Flags, g: Flags, inside: bool, t: Flags) {
    && (inside && IsAllocated(f) ==> g == t)
    && (inside && !IsAllocated(f) ==> g == f)
    && (!inside ==> g == f)
  }

  /** A rewrite of [lo, eaddr) that has come to saddr: everything below cut is done. */
  ghost predicate Underway(v: seq<Extent>, w: seq<Extent>, lo: nat, saddr: nat, cut: nat, eaddr: nat, t: Flags) {
    lo <= saddr && lo <= cut <= eaddr && (saddr <= cut || cut == eaddr) && Rewritten(v, w, lo, cut, t)
  }

  /** An entry that is not allocated, or has the target flags already, needs no change. */
  lemma PassOver(v: seq<Extent>, w: seq<Extent>, k: nat, lo: nat, saddr: nat, cut: nat, eaddr: nat, t: Flags)
    returns (cut': nat)
    requires Tiles(w, 0, MAXADDR) && k < |w| && Covers(w[k], saddr) && saddr < eaddr <= MAXADDR
    requires Underway(v, w, lo, saddr, cut, eaddr, t) && (!IsAllocated(w[k].flags) || w[k].flags == t)
    ensures Underway(v, w, lo, w[k].end, cut', eaddr, t)
  {
    var x := Least(w[k].end, eaddr);
    cut' := if cut < x then x else cut;
    forall a | cut <= a < x ensures FlagsAt(w, a) == w[k].flags { FlagsAtEntry(w, 0, MAXADDR, k, a); }
  }

  /** An allocated entry that needs the change has not been passed yet. */
  lemma NotYetDone(v: seq<Extent>, w: seq<Extent>, k: nat, lo: nat, saddr: nat, cut: nat, eaddr: nat, t: Flags)
    requires Tiles(w, 0, MAXADDR) && k < |w| && Covers(w[k], saddr) && saddr < eaddr <= MAXADDR
    requires Underway(v, w, lo, saddr, cut, eaddr, t) && IsAllocated(w[k].flags) && w[k].flags != t
    ensures cut == saddr
  {
    FlagsAtEntry(w, 0, MAXADDR, k, saddr);
  }

  lemma TakeOver(v: seq<Extent>, w: seq<Extent>, w': seq<Extent>, k: nat, lo: nat, saddr: nat, eaddr: nat, x: nat,
                 t: Flags)
    requires Tiles(w, 0, MAXADDR) && k < |w| && Covers(w[k], saddr) && IsAllocated(w[k].flags)
    requires Rewritten(v, w, lo, saddr, t) && lo <= saddr < eaddr <= MAXADDR && x == Least(w[k].end, eaddr)
    requires ModifiedTo(w, w', saddr, x, t)
    ensures Rewritten(v, w', lo, x, t)
  {
    forall a | 0 <= a < MAXADDR ensures RewrittenAt(FlagsAt(v, a), FlagsAt(w', a), lo <= a < x, t) {
      assert RewrittenAt(FlagsAt(v, a), FlagsAt(w, a), lo <= a < saddr, t);
      if saddr <= a < x { FlagsAtEntry(w, 0, MAXADDR, k, a); }
    }
  }

  /** The modify of one round, on the entry that covers saddr. */
  method RewriteEntry(amm: Amm, entry: Entry, saddr: nat, eaddr: nat, t: Flags, ghost v: seq<Extent>, ghost lo: nat,
                      ghost w: seq<Extent>, ghost k: nat)
    returns (rc: Rc, x: nat)
    requires amm.Valid() && w == amm.View() && lo <= saddr < eaddr <= MAXADDR && k == IndexOf(w, 0, MAXADDR, saddr)
    requires entry == amm.spine[k] && IsAllocated(w[k].flags) && w[k].flags != t && Rewritten(v, w, lo, saddr, t)
    modifies amm`nodes, amm`spine, amm`repr, amm`hint, amm.repr`next, amm.repr`end, amm.repr`flags
    ensures amm.Valid() && fresh(amm.repr - old(amm.repr)) && (rc.Ok? || rc.Enomem?)
    ensures saddr < x <= eaddr
    ensures rc.Ok? ==> Rewritten(v, amm.View(), lo, x, t) && (entry.end == saddr || entry.end == x)
    ensures rc.Enomem? ==> Rewritten(v, amm.View(), lo, saddr, t)
    ensures rc.Ok? && Minimal(w) ==> Minimal(amm.View())
    ensures Solid(w) ==> Solid(amm.View())
  {
    x := Least(entry.end, eaddr);
    FlagsAtEntry(w, 0, MAXADDR, k, saddr);
    var size := x - saddr;
    rc := amm.ModifyHeld(saddr, size, t, w, entry);
    assert x == saddr + size;
    assert !rc.Einval?;
    ghost var w' := amm.View();
    if rc.Enomem? {
      StillRewritten(v, w, w', lo, saddr, t);
    } else {
      TakeOver(v, w, w', k, lo, saddr, eaddr, saddr + size, t);
    }
  }

  lemma StillRewritten(v: seq<Extent>, w: seq<Extent>, w': seq<Extent>, lo: nat, cut: nat, t: Flags)
    requires Rewritten(v, w, lo, cut, t) && SameMeaning(w, w', MAXADDR)
    ensures Rewritten(v, w', lo, cut, t)
  {
  }

  /** One round of the loop in amm_deallocate and amm_protect. The end that is read last is that of
      the entry found first, which the modify may have shortened or released. */
  method RewriteNext(amm: Amm, saddr: nat, eaddr: nat, t: Flags, ghost v: seq<Extent>, ghost lo: nat, ghost cut: nat)
    returns (rc: Rc, next: nat, ghost cut': nat)
    requires amm.Valid() && saddr < eaddr <= MAXADDR && Underway(v, amm.View(), lo, saddr, cut, eaddr, t)
    modifies amm`nodes, amm`spine, amm`repr, amm`hint, amm.repr`next, amm.repr`end, amm.repr`flags
    ensures amm.Valid() && fresh(amm.repr - old(amm.repr)) && (rc.Ok? || rc.Enomem?)
    ensures rc.Ok? ==> Underway(v, amm.View(), lo, next, cut', eaddr, t)
    ensures rc.Ok? ==> next > saddr || (next == saddr == cut < cut')
    ensures rc.Enomem? ==> cut' == cut < eaddr && Rewritten(v, amm.View(), lo, cut, t)
    ensures rc.Ok? && Minimal(old(amm.View())) ==> Minimal(amm.View())
    ensures Solid(old(amm.View())) ==> Solid(amm.View())
  {
    ghost var w := amm.View();
    var entry;
    ghost var k;
    entry, k := amm.FindAddr(saddr);
    if !IsAllocated(entry.flags) || entry.flags == t {
      cut' := PassOver(v, w, k, lo, saddr, cut, eaddr, t);
      return Ok, entry.end, cut';
    }
    NotYetDone(v, w, k, lo, saddr, cut, eaddr, t);
    label Found:
    var x;
    rc, x := RewriteEntry(amm, entry, saddr, eaddr, t, v, lo, w, k);
    forall e: Entry | e in amm.repr && e !in old(amm.repr) ensures !old(allocated(e)) {
      assert !old@Found(allocated(e));
    }
    next := entry.end;
    cut' := cut;
    if rc.Ok? {
      cut' := x;
    }
  }

  /** The loop of amm_deallocate and amm_protect: the allocated parts of the range, and no other
      address, get the flags t. When entries run out, a prefix of the range has been done. */
  method Rewrite(amm: Amm, addr: nat, size: nat, t: Flags) returns (rc: Rc, ghost cut: nat)
    requires amm.Valid() && addr < WORD && size < WORD
    modifies amm`nodes, amm`spine, amm`repr, amm`hint, amm.repr`next, amm.repr`end, amm.repr`flags
    ensures amm.Valid() && fresh(amm.repr - old(amm.repr)) && (rc.Ok? || rc.Enomem?)
    ensures Rewritten(old(amm.View()), amm.View(), addr, cut, t)
    ensures addr <= cut
    ensures rc.Ok? && addr + size < WORD ==> cut == addr + size
    ensures rc.Enomem? ==> cut < addr + size < WORD
    ensures addr + size >= WORD ==> rc.Ok? && cut == addr
    ensures rc.Ok? && Minimal(old(amm.View())) ==> Minimal(amm.View())
    ensures Solid(old(amm.View())) ==> Solid(amm.View())
  {
    ghost var v := amm.View();
    var saddr, eaddr := addr, Wrap(addr + size);
    cut, rc := addr, Ok;
    while saddr < eaddr
      invariant amm.Valid() && fresh(amm.repr - old(amm.repr))
      invariant rc.Ok? && saddr >= addr
      invariant eaddr >= addr ==> Underway(v, amm.View(), addr, saddr, cut, eaddr, t)
      invariant eaddr < addr ==> saddr == addr == cut && amm.View() == v
      invariant Solid(v) ==> Solid(amm.View())
      invariant Minimal(v) ==> Minimal(amm.View())
      decreases eaddr - saddr, cut <= saddr
    {
      label Round:
      rc, saddr, cut := RewriteNext(amm, saddr, eaddr, t, v, addr, cut);
      forall e: Entry | e in amm.repr && e !in old(amm.repr) ensures !old(allocated(e)) {
        assert e !in old@Round(amm.repr) ==> !old@Round(allocated(e));
      }
      if rc.Enomem? {
        return rc, cut;
      }
    }
  }

  /** amm_deallocate: the allocated parts of the range become free, the rest of the map keeps its
      flags. Deallocated addresses that were not allocated are left alone. */
  method Deallocate(amm: Amm, addr: nat, size: nat) returns (rc: Rc, ghost cut: nat)
    requires amm.Valid() && addr < WORD && size < WORD
    modifies amm`nodes, amm`spine, amm`repr, amm`hint, amm.repr`next, amm.repr`end, amm.repr`flags
    ensures amm.Valid() && fresh(amm.repr - old(amm.repr)) && (rc.Ok? || rc.Enomem?)
    ensures Rewritten(old(amm.View()), amm.View(), addr, cut, FREE)
    ensures addr <= cut
    ensures rc.Ok? && addr + size < WORD ==> cut == addr + size
    ensures rc.Enomem? ==> cut < addr + size < WORD
    ensures addr + size >= WORD ==> rc.Ok? && cut == addr
    ensures rc.Ok? && Minimal(old(amm.View())) ==> Minimal(amm.View())
    ensures Solid(old(amm.View())) ==> Solid(amm.View())
  {
    rc, cut := Rewrite(amm, addr, size, FREE);
  }

  function ProtectFlags(prot: Flags): Flags {
    (prot & !RESERVED) | ALLOCATED
  }

  /** amm_protect: the allocated parts of the range, and only they, get the new protection. */
  method Protect(amm: Amm, addr: nat, size: nat, prot: Flags) returns (rc: Rc, ghost cut: nat)
    requires amm.Valid() && addr < WORD && size < WORD
    modifies amm`nodes, amm`spine, amm`repr, amm`hint, amm.repr`next, amm.repr`end, amm.repr`flags
    ensures amm.Valid() && fresh(amm.repr - old(amm.repr)) && (rc.Ok? || rc.Enomem?)
    ensures Rewritten(old(amm.View()), amm.View(), addr, cut, ProtectFlags(prot))
    ensures addr <= cut
    ensures rc.Ok? && addr + size < WORD ==> cut == addr + size
    ensures rc.Enomem? ==> cut < addr + size < WORD
    ensures addr + size >= WORD ==> rc.Ok? && cut == addr
    ensures rc.Ok? && Minimal(old(amm.View())) ==> Minimal(amm.View())
    ensures Solid(old(amm.View())) ==> Solid(amm.View())
  {
    rc, cut := Rewrite(amm, addr, size, ProtectFlags(prot));
  }

  function AllocateFlags(prot: Flags): Flags {
    ALLOCATED | (prot & !(ALLOCATED | RESERVED))
  }

  /** The bits of a flags word that are the caller's. */
  const PROT_BITS: Flags := 0x3FFF_FFFF

  /** f says that an address is allocated, with the protection asked for. */
  predicate Protects(f: Flags, prot: Flags) {
    IsAllocated(f) && f & RESERVED == 0 && f & PROT_BITS == prot & PROT_BITS
  }

  lemma ProtectedBits(p: bv32, f: bv32)
    requires f == (p & 0x7FFF_FFFF) | 0x4000_0000 || f == 0x4000_0000 | (p & 0x3FFF_FFFF)
    ensures f & 0x4000_0000 == 0x4000_0000 && f & 0x8000_0000 == 0 && f & 0x3FFF_FFFF == p & 0x3FFF_FFFF
  {
  }

  lemma ProtectsIs(f: Flags, prot: Flags)
    requires f & 0x4000_0000 == 0x4000_0000 && f & 0x8000_0000 == 0 && f & 0x3FFF_FFFF == prot & 0x3FFF_FFFF
    ensures Protects(f, prot)
  {
  }

  lemma FlagsAre(prot: Flags)
    ensures ProtectFlags(prot) == (prot & 0x7FFF_FFFF) | 0x4000_0000
    ensures AllocateFlags(prot) == 0x4000_0000 | (prot & 0x3FFF_FFFF)
  {
  }

  /** Both kinds of flags words protect. */
  lemma FlagsProtect(prot: Flags, f: Flags)
    requires f == ProtectFlags(prot) || f == AllocateFlags(prot)
    ensures Protects(f, prot)
  {
    FlagsAre(prot);
    ProtectedBits(prot, f);
    ProtectsIs(f, prot);
  }

  /** The search of amm_allocate: free addresses, no alignment, from the hinted address on. */
  function AllocateQuery(addr: nat, size: nat): Query {
    Query(size, FREE, 0xFFFF_FFFF, 0, if addr >= MAXADDR then 0 else addr)
  }

  /** How an allocation ends: with an address, with ENOMEM because nothing fits or because entries
      ran out, with EINVAL, or in a failed assertion of the search. */
  datatype Allocation = Placed(addr: nat) | NoFit | OutOfEntries | Invalid | Panicked

  lemma MatchesFree(q: Query, f: Flags)
    requires q.mask == 0xFFFF_FFFF && q.want == FREE
    ensures Match(q, f) <==> f == FREE
  {
    assert f & 0xFFFF_FFFF == f;
  }

  /** In a minimal map a stretch of free addresses lies in one entry. */
  lemma FreeInOneEntry(v: seq<Extent>, q: Query, a: nat)
    requires Tiles(v, 0, MAXADDR) && Minimal(v) && q.mask == 0xFFFF_FFFF && q.want == FREE && q.size > 0
    requires Fits(v, q, a)
    ensures a + q.size <= EndAt(v, a)
  {
    var k := IndexOf(v, 0, MAXADDR, a);
    if v[k].end < a + q.size {
      assert Meets(v, k) && Differ(v, k);
      FlagsAtEntry(v, 0, MAXADDR, k, a);
      FlagsAtEntry(v, 0, MAXADDR, k + 1, v[k].end);
      MatchesFree(q, FlagsAt(v, a));
      MatchesFree(q, FlagsAt(v, v[k].end));
      assert false;
    }
  }

  /** What an allocation says of a map v, when w is the map afterwards. */
  ghost predicate AllocationMeans(v: seq<Extent>, q: Query, prot: Flags, r: Allocation, w: seq<Extent>) {
    && !r.Invalid?
    && (r.Panicked? <==> q.size == 0 || q.from + q.size >= WORD || (!HasFit(v, q) && !Safe(v, q)))
    && (r.NoFit? <==> q.size > 0 && q.from + q.size < WORD && !HasFit(v, q) && Safe(v, q))
    && (r.Placed? ==>
          && Candidate(v, q, r.addr) && NoneBelow(v, q, r.addr)
          && ModifiedTo(v, w, r.addr, r.addr + q.size, AllocateFlags(prot)))
  }

  /** The addresses from a on are free. */
  ghost predicate AllFree(v: seq<Extent>, a: nat, size: nat) {
    a + size <= MAXADDR && forall x :: a <= x < a + size ==> FlagsAt(v, x) == FREE
  }

  /** a is not below the hint; AMM_MAXADDR is no hint. */
  predicate FromHint(addr: nat, a: nat) {
    addr >= MAXADDR || addr <= a
  }

  /** What amm_allocate promises its caller: a range that was free, not below the hint. In a map without
      empty entries it is the lowest one, and without one there is none. */
  ghost predicate Allotted(v: seq<Extent>, addr: nat, size: nat, r: Allocation) {
    && (r.Placed? ==> FromHint(addr, r.addr) && AllFree(v, r.addr, size))
    && (Solid(v) && r.Placed? ==> forall a: nat :: FromHint(addr, a) && a < r.addr ==> !AllFree(v, a, size))
    && (Solid(v) && size > 0 && (r.NoFit? || r.Panicked?) ==>
          forall a: nat :: FromHint(addr, a) ==> !AllFree(v, a, size))
  }

  lemma FitsIsFree(v: seq<Extent>, q: Query, a: nat)
    requires q.mask == 0xFFFF_FFFF && q.want == FREE
    ensures Fits(v, q, a) <==> AllFree(v, a, q.size)
  {
    forall x: nat ensures Match(q, FlagsAt(v, x)) <==> FlagsAt(v, x) == FREE { MatchesFree(q, FlagsAt(v, x)); }
  }

  lemma CandidateIsFree(v: seq<Extent>, addr: nat, size: nat, a: nat)
    requires Tiles(v, 0, MAXADDR) && size > 0
    ensures Candidate(v, AllocateQuery(addr, size), a) ==> FromHint(addr, a) && AllFree(v, a, size)
    ensures Solid(v) && FromHint(addr, a) && AllFree(v, a, size) ==> Candidate(v, AllocateQuery(addr, size), a)
  {
    var q := AllocateQuery(addr, size);
    assert Pow2(0) == 1;
    FitsIsFree(v, q, a);
    SuitsFits(v, q, a);
    if Solid(v) { SolidSuits(v, q, a); }
  }

  lemma AllocationIsAllotted(v: seq<Extent>, addr: nat, size: nat, prot: Flags, r: Allocation, w: seq<Extent>)
    requires Tiles(v, 0, MAXADDR) && AllocationMeans(v, AllocateQuery(addr, size), prot, r, w)
    ensures Allotted(v, addr, size, r)
  {
    var q := AllocateQuery(addr, size);
    if size > 0 {
      if r.Placed? { CandidateIsFree(v, addr, size, r.addr); }
      if Solid(v) {
        forall a: nat | FromHint(addr, a) && AllFree(v, a, size) ensures Candidate(v, q, a) && q.from + size < WORD {
          CandidateIsFree(v, addr, size, a);
        }
      }
    }
  }

  /** What a search without alignment finds is the first candidate. */
  ghost predicate FirstFound(v: seq<Extent>, q: Query, out: Outcome) {
    && (out.Found? ==> Candidate(v, q, out.addr) && NoneBelow(v, q, out.addr) && q.size > 0)
    && (out.NotFound? <==> q.size > 0 && q.from + q.size < WORD && !HasFit(v, q) && Safe(v, q))
    && (out.AssertFailed? <==> q.size == 0 || q.from + q.size >= WORD || (!HasFit(v, q) && !Safe(v, q)))
  }

  lemma FoundFirst(v: seq<Extent>, q: Query, out: Outcome)
    requires Sought(v, q, false, out) && q.bits == 0
    ensures FirstFound(v, q, out)
  {
    assert Pow2(0) == 1;
    if out.Found? { assert Candidate(v, q, out.addr); }
  }

  /** The search of amm_allocate. */
  method FindFree(amm: Amm, q: Query) returns (out: Outcome)
    requires amm.Valid() && q.size < WORD && q.from < WORD && q == Query(q.size, FREE, 0xFFFF_FFFF, 0, q.from)
    modifies amm`hint
    ensures amm.Valid() && amm.View() == old(amm.View()) && FirstFound(amm.View(), q, out)
    ensures out.Found? ==> out.addr < MAXADDR
  {
    var entry;
    out, entry := FindGen(amm, q.from, q.size, FREE, 0xFFFF_FFFF, 0, false);
    assert Pow2(0) == 1;
    FoundFirst(amm.View(), q, out);
  }

  /** amm_allocate: the lowest free range at or above the hint, the whole of it marked allocated.
      The search fails an assertion for an empty or oversized request, and when nothing fits and a
      restart of the search leaves the address space. */
  method Allocate(amm: Amm, addr: nat, size: nat, prot: Flags) returns (r: Allocation)
    requires amm.Valid() && addr < WORD && size < WORD
    modifies amm`nodes, amm`spine, amm`repr, amm`hint, amm.repr`next, amm.repr`end, amm.repr`flags
    ensures fresh(amm.repr - old(amm.repr))
    ensures AllocationMeans(old(amm.View()), AllocateQuery(addr, size), prot, r, amm.View())
    ensures Allotted(old(amm.View()), addr, size, r)
    ensures !r.OutOfEntries? ==> amm.Valid()
    ensures !r.OutOfEntries? && !r.Placed? ==> amm.View() == old(amm.View())
    ensures r.OutOfEntries? && Minimal(old(amm.View())) ==>
      amm.Valid() && SameMeaning(old(amm.View()), amm.View(), MAXADDR) && Solid(amm.View())
  {
    ghost var v := amm.View();
    var q := AllocateQuery(addr, size);
    var out := FindFree(amm, q);
    assert amm.View() == v;
    if out.Found? {
      r := Place(amm, out.addr, size, prot, v, q);
    } else {
      r := if out.NotFound? then NoFit else Panicked;
    }
    AllocationIs(v, q, prot, out, r, amm.View());
    AllocationIsAllotted(v, addr, size, prot, r, amm.View());
  }

  lemma AllocationIs(v: seq<Extent>, q: Query, prot: Flags, out: Outcome, r: Allocation, w: seq<Extent>)
    requires FirstFound(v, q, out) && (out.NotFound? ==> r.NoFit?) && (out.AssertFailed? ==> r.Panicked?)
    requires out.Found? ==> r == Placed(out.addr) || r.OutOfEntries?
    requires r.Placed? ==> ModifiedTo(v, w, r.addr, r.addr + q.size, AllocateFlags(prot))
    ensures AllocationMeans(v, q, prot, r, w)
  {
  }

  /** The end of amm_allocate: the range that was found becomes allocated. */
  method Place(amm: Amm, at: nat, size: nat, prot: Flags, ghost v: seq<Extent>, ghost q: Query) returns (r: Allocation)
    requires amm.Valid() && v == amm.View() && q.size == size > 0 && q.mask == 0xFFFF_FFFF && q.want == FREE
    requires at < MAXADDR && Candidate(v, q, at) && NoneBelow(v, q, at)
    modifies amm`nodes, amm`spine, amm`repr, amm`hint, amm.repr`next, amm.repr`end, amm.repr`flags
    ensures fresh(amm.repr - old(amm.repr)) && (r == Placed(at) || r.OutOfEntries?)
    ensures r.Placed? ==> amm.Valid() && ModifiedTo(v, amm.View(), at, at + size, AllocateFlags(prot))
    ensures r.OutOfEntries? && Minimal(v) ==>
      amm.Valid() && SameMeaning(v, amm.View(), MAXADDR) && Solid(amm.View())
  {
    if Minimal(v) {
      SuitsFits(v, q, at);
      FreeInOneEntry(v, q, at);
    }
    var rc := amm.Modify(at, size, AllocateFlags(prot));
    if rc.Ok? {
      return Placed(at);
    }
    if rc.Einval? {
      return Invalid;
    }
    return OutOfEntries;
  }

  /** amm_reserve. */
  method Reserve(amm: Amm, addr: nat, size: nat) returns (rc: Rc)
    requires amm.Valid() && addr < WORD && size < WORD && (addr < MAXADDR || size > 0)
    modifies amm`nodes, amm`spine, amm`repr, amm`hint, amm.repr`next, amm.repr`end, amm.repr`flags
    ensures fresh(amm.repr - old(amm.repr))
    ensures rc.Einval? <==> addr + size >= WORD
    ensures rc.Einval? ==> amm.Valid() && amm.View() == old(amm.View())
    ensures rc.Ok? ==> amm.Valid() && ModifiedTo(old(amm.View()), amm.View(), addr, addr + size, RESERVED)
    ensures rc.Ok? ==> Becomes(old(amm.View()), amm.View(), addr, addr + size, RESERVED)
    ensures rc.Enomem? ==>
      (amm.Valid() <==> amm.View() == old(amm.View()) || addr + size <= EndAt(old(amm.View()), addr))
    ensures rc.Enomem? && amm.Valid() ==> SameMeaning(old(amm.View()), amm.View(), MAXADDR)
  {
    rc := amm.Modify(addr, size, RESERVED);
  }

  /** The map that amm_init promises. */
  ghost predicate FreeExactly(v: seq<Extent>, lo: nat, hi: nat) {
    forall a :: 0 <= a < MAXADDR ==> FlagsAt(v, a) == if lo <= a < hi then FREE else RESERVED
  }

  lemma InitMeaning(v0: seq<Extent>, v1: seq<Extent>, v2: seq<Extent>, lo: nat, hi: nat)
    requires v0 == [Extent(0, MAXADDR, FREE)] && hi < WORD
    requires Overridden(v0, v1, MAXADDR, 0, lo, RESERVED) && Overridden(v1, v2, MAXADDR, hi, MAXADDR, RESERVED)
    ensures FreeExactly(v2, lo, hi)
  {
    assert forall a :: 0 <= a < MAXADDR ==> FlagsAt(v0, a) == FREE;
  }

  /** A step of amm_init: reserve [addr, eaddr) unless it is empty. */
  method ReservePart(amm: Amm, addr: nat, eaddr: nat) returns (ok: bool)
    requires amm.Valid() && addr <= eaddr <= MAXADDR && Minimal(amm.View())
    modifies amm`nodes, amm`spine, amm`repr, amm`hint, amm.repr`next, amm.repr`end, amm.repr`flags
    ensures fresh(amm.repr - old(amm.repr))
    ensures ok ==> amm.Valid() && Minimal(amm.View())
    ensures ok ==> Overridden(old(amm.View()), amm.View(), MAXADDR, addr, eaddr, RESERVED)
  {
    ok := true;
    if addr < eaddr {
      var size := eaddr - addr;
      var rc := amm.Modify(addr, size, RESERVED);
      ok := rc.Ok?;
    }
  }

  /** amm_init: exactly the addresses of [lo, hi) are free, all others reserved, in a minimal map.
      The source panics when entries run out. */
  method Init(lo: nat, hi: nat) returns (amm: Amm, ok: bool)
    requires lo < WORD && hi < WORD
    ensures fresh(amm)
    ensures ok ==> amm.Valid() && fresh(amm.repr) && Minimal(amm.View())
    ensures ok ==> FreeExactly(amm.View(), lo, hi)
  {
    amm := new Amm.Gen(FREE);
    ghost var v0 := amm.View();
    assert Minimal(v0);
    ok := ReservePart(amm, 0, lo);
    if !ok {
      return;
    }
    ghost var v1, r := amm.View(), amm.repr;
    assert fresh(r);
    label Half:
    ok := ReservePart(amm, hi, MAXADDR);
    if ok {
      forall e: Entry | e in amm.repr ensures !old(allocated(e)) {
        assert e !in r ==> !old@Half(allocated(e));
      }
      ghost var v2 := amm.View();
      InitMeaning(v0, v1, v2, lo, hi);
    }
  }

  /** Where the first range of a map that is free in [lo, hi) can start. */
  function FirstFree(q: Query, lo: nat): nat {
    if q.from < lo then lo else q.from
  }

  /** The free ranges of such a map. */
  lemma FreshSuits(v: seq<Extent>, lo: nat, hi: nat, q: Query, a: nat)
    requires Tiles(v, 0, MAXADDR) && Minimal(v) && FreeExactly(v, lo, hi) && hi <= MAXADDR
    requires q.mask == 0xFFFF_FFFF && q.want == FREE && q.size > 0
    ensures Suits(v, q, a) <==> lo <= a && a + q.size <= hi
  {
    SolidSuits(v, q, a);
    forall x: nat | x < MAXADDR ensures Match(q, FlagsAt(v, x)) <==> lo <= x < hi { MatchesFree(q, FlagsAt(v, x)); }
    if Fits(v, q, a) {
      assert Match(q, FlagsAt(v, a)) && Match(q, FlagsAt(v, a + q.size - 1));
    }
  }

  /** The reserved entry in front of the free range ends where the range starts. */
  lemma FreshFront(v: seq<Extent>, lo: nat, hi: nat) returns (k: nat)
    requires Tiles(v, 0, MAXADDR) && FreeExactly(v, lo, hi) && 0 < lo < hi <= MAXADDR
    ensures k + 1 < |v| && v[k].end == lo && v[k].flags == RESERVED
  {
    k := IndexOf(v, 0, MAXADDR, lo - 1);
    if v[k].end > lo { FlagsAtEntry(v, 0, MAXADDR, k, lo); }
  }

  /** A reserved entry of such a map that is not the last one ends at or before the free range. */
  lemma FreshReserved(v: seq<Extent>, lo: nat, hi: nat, i: nat)
    requires Tiles(v, 0, MAXADDR) && Minimal(v) && FreeExactly(v, lo, hi) && lo < hi <= MAXADDR
    requires i + 1 < |v| && v[i].flags != FREE
    ensures v[i].end <= lo
  {
    Ordered(v, 0, MAXADDR, i, i + 1);
    FlagsAtEntry(v, 0, MAXADDR, i, v[i].start);
    FlagsAtEntry(v, 0, MAXADDR, i + 1, v[i + 1].start);
    assert Meets(v, i) && Differ(v, i);
    if v[i].start < lo < v[i].end { FlagsAtEntry(v, 0, MAXADDR, i, lo); }
  }

  /** In a fresh map the search can restart exactly if the request does not reach past the 32-bit
      space from the first free address on. */
  lemma FreshSafe(v: seq<Extent>, lo: nat, hi: nat, q: Query)
    requires Tiles(v, 0, MAXADDR) && Minimal(v) && FreeExactly(v, lo, hi) && lo < hi <= MAXADDR
    requires q.mask == 0xFFFF_FFFF && q.want == FREE && q.bits == 0 && q.from + q.size < WORD
    ensures Safe(v, q) <==> FirstFree(q, lo) + q.size < WORD
  {
    assert Pow2(0) == 1;
    if q.from < lo {
      var k := FreshFront(v, lo, hi);
      MatchesFree(q, v[k].flags);
      assert RestartsInside(v, q, k) ==> lo + q.size < WORD;
    }
    if FirstFree(q, lo) + q.size < WORD {
      forall i: nat | i + 1 < |v| ensures RestartsInside(v, q, i) {
        MatchesFree(q, v[i].flags);
        if !Match(q, v[i].flags) { FreshReserved(v, lo, hi, i); }
      }
    }
  }

  /** What the search meets in a fresh map. */
  lemma FreshFit(v: seq<Extent>, lo: nat, hi: nat, q: Query)
    requires Tiles(v, 0, MAXADDR) && Minimal(v) && FreeExactly(v, lo, hi) && hi <= MAXADDR
    requires q.mask == 0xFFFF_FFFF && q.want == FREE && q.bits == 0 && q.size > 0
    ensures HasFit(v, q) <==> FirstFree(q, lo) + q.size <= hi
    ensures forall a: nat :: Candidate(v, q, a) && NoneBelow(v, q, a) ==> a == FirstFree(q, lo)
  {
    assert Pow2(0) == 1;
    forall a: nat ensures Candidate(v, q, a) <==> FirstFree(q, lo) <= a && a + q.size <= hi {
      FreshSuits(v, lo, hi, q, a);
    }
    var first := FirstFree(q, lo);
    assert first + q.size <= hi ==> Candidate(v, q, first);
    forall a: nat | Candidate(v, q, a) && NoneBelow(v, q, a) ensures a == first {
      assert Candidate(v, q, first);
    }
  }

  /** The first allocation after amm_init: it fails an assertion of the search exactly if it is empty
      or reaches past the 32-bit space from the first free address on; otherwise it is placed there
      or there is no room. */
  method FirstAllocation(lo: nat, hi: nat, addr: nat, size: nat, prot: Flags) returns (ok: bool, r: Allocation)
    requires lo < hi < WORD && addr < WORD && size < WORD
    ensures var first := if addr >= MAXADDR || addr < lo then lo else addr;
      && (ok ==> !r.Invalid? && (r.Panicked? <==> size == 0 || first + size >= WORD))
      && (ok ==> (r.NoFit? <==> size > 0 && hi < first + size < WORD))
      && (ok && r.Placed? ==> r.addr == first)
  {
    var amm;
    r := Panicked;
    amm, ok := Init(lo, hi);
    if !ok {
      return;
    }
    ghost var v, q := amm.View(), AllocateQuery(addr, size);
    if size > 0 { FreshFit(v, lo, hi, q); }
    if q.from + size < WORD { FreshSafe(v, lo, hi, q); }
    r := Allocate(amm, addr, size, prot);
  }

  /** An empty entry that does not match, left behind by the reservation of an empty range, hides a
      free range from the search: all ten addresses from 0 on are free, but the search moves on. */
  lemma EmptyEntryHides(v: seq<Extent>, q: Query)
    requires v == [Extent(0, 5, FREE), Extent(5, 5, RESERVED), Extent(5, MAXADDR, FREE)] && q == AllocateQuery(0, 10)
    ensures Tiles(v, 0, MAXADDR) && Fits(v, q, 0) && !Candidate(v, q, 0) && Scan(v, q, false) == Found(5)
  {
    assert Meets(v, 0) && Meets(v, 1);
    assert Pow2(0) == 1;
    MatchesFree(q, FREE);
    MatchesFree(q, RESERVED);
    assert FlagsAt(v[1..], 5) == FREE;
    forall x | 0 <= x < 10 ensures FlagsAt(v, x) == FREE {
      FlagsAtEntry(v, 0, MAXADDR, if x < 5 then 0 else 2, x);
    }
    assert Bears(v[1], q, 0);
    assert IndexOf(v, 0, MAXADDR, 0) == 0;
    assert Walk(v, q, false, 2, 5, 15) == Found(5);
    assert Walk(v, q, false, 1, 0, 10) == Found(5);
  }

  /** What the reservation of nothing in the middle of a free map leaves. */
  lemma EmptyReservation(v: seq<Extent>)
    requires v == [Extent(0, MAXADDR, FREE)]
    ensures Tiles(v, 0, MAXADDR)
    ensures Modified(v, MAXADDR, 5, 5, RESERVED) ==
      [Extent(0, 5, FREE), Extent(5, 5, RESERVED), Extent(5, MAXADDR, FREE)]
  {
  }

  /** The same with calls: a fresh map, a reservation of nothing at 5, and a search. */
  method ReserveNothing() returns (ok: bool, out: Outcome)
    ensures ok ==> out == Found(5)
  {
    var amm;
    out := NotFound;
    amm, ok := Init(0, MAXADDR);
    if !ok {
      return;
    }
    WholeFree(amm.View());
    EmptyReservation(amm.View());
    var rc := Reserve(amm, 5, 0);
    ok := rc.Ok?;
    if ok {
      EmptyEntryHides(amm.View(), AllocateQuery(0, 10));
      var entry;
      out, entry := FindGen(amm, 0, 10, FREE, 0xFFFF_FFFF, 0, false);
    }
  }

  lemma WholeFree(v: seq<Extent>)
    requires Tiles(v, 0, MAXADDR) && Minimal(v) && FreeExactly(v, 0, MAXADDR)
    ensures v == [Extent(0, MAXADDR, FREE)]
  {
    var w := [Extent(0, MAXADDR, FREE)];
    MinimalUnique(v, w, 0, MAXADDR);
  }

  /** Entries k to m are exactly the range [addr, eaddr). */
  ghost predicate Isolated(v: seq<Extent>, k: nat, m: nat, addr: nat, eaddr: nat) {
    k <= m < |v| && v[k].start == addr && v[m].end == eaddr
  }

  /** The loop of amm_select: the entry in which eaddr lies, from the entry that starts the range. */
  method EntryReaching(amm: Amm, eaddr: nat, plink: Link, first: Entry, ghost v: seq<Extent>, ghost k: nat)
    returns (pentry: Link, entry: Entry, ghost m: nat)
    requires amm.Valid() && v == amm.View() && k < |v| && plink == amm.LinkAt(k) && amm.spine[k] == first
    requires first.start <= eaddr <= MAXADDR
    ensures k <= m < |v| && entry == amm.spine[m] && pentry == amm.LinkAt(m)
    ensures v[m].start <= eaddr <= v[m].end
  {
    pentry, entry, m := plink, first, k;
    while entry.end < eaddr
      invariant k <= m < |v| && entry == amm.spine[m] && pentry == amm.LinkAt(m) && v[m].start <= eaddr
      decreases |v| - m
    {
      EndsBelow(v, 0, MAXADDR, m);
      assert m + 1 < |v| && Meets(v, m) && Chained(amm.spine, m);
      pentry, entry, m := NextOf(entry), entry.next, m + 1;
    }
  }

  lemma SplitSpine(s: seq<Entry>, t: seq<Entry>, tail: Entry, j: nat, k: nat)
    requires j <= k < |s| && t == s[..k + 1] + [tail] + s[k + 1..]
    ensures |t| == |s| + 1 && t[j] == s[j] && t[k] == s[k] && t[k + 1] == tail && LinkPast(t, j) == LinkPast(s, j)
  {
  }

  /** Splits entry k, while the hint points at an entry j that is not after it. */
  method SplitBehind(amm: Amm, plink: Link, entry: Entry, at: nat, ghost v: seq<Extent>, ghost j: nat, ghost k: nat)
    returns (ok: bool, tail: Entry)
    requires amm.Valid() && v == amm.View() && j <= k < |v| && amm.hint == amm.LinkAt(j) && amm.spine[k] == entry
    requires plink == amm.LinkAt(k) && entry.start <= at < entry.end
    modifies amm`nodes, amm`spine, amm`repr, amm.repr`next, amm.repr`end
    ensures amm.Valid() && fresh(amm.repr - old(amm.repr)) && SameMeaning(v, amm.View(), MAXADDR)
    ensures k < |amm.spine| && amm.hint == amm.LinkAt(j)
    ensures amm.spine[j] == old(amm.spine[j]) && amm.spine[k] == entry
    ensures ok ==> k + 1 < |amm.spine| && amm.spine[k + 1] == tail && entry.end == tail.start == at
  {
    SplitKeeps(v, MAXADDR, k, at);
    var rc, head;
    rc, head, tail := amm.Split(plink, entry, at, k);
    assert amm.repr - old(amm.repr) <= {tail};
    ok := rc.Ok?;
    if ok {
      SplitSpine(old(amm.spine), amm.spine, tail, j, k);
      assert amm.View()[k].end == at;
      assert amm.View()[k + 1].start == at;
    }
    assert amm.hint == amm.LinkAt(j);
  }

  /** The first half of amm_select: split off what comes before the range, and move the hint. */
  method SelectFront(amm: Amm, addr: nat, entry: Entry, ghost v: seq<Extent>, ghost k: nat)
    returns (ok: bool, tail: Entry)
    requires amm.Valid() && v == amm.View() && k < |v| && amm.hint == amm.LinkAt(k) && amm.spine[k] == entry
    requires entry.start < addr < entry.end
    modifies amm`nodes, amm`spine, amm`repr, amm`hint, amm.repr`next, amm.repr`end
    ensures amm.Valid() && fresh(amm.repr - old(amm.repr)) && SameMeaning(v, amm.View(), MAXADDR)
    ensures ok ==> k + 1 < |amm.spine| && amm.spine[k + 1] == tail && amm.hint == amm.LinkAt(k + 1)
    ensures ok ==> tail.start == addr
  {
    ok, tail := SplitBehind(amm, amm.hint, entry, addr, v, k, k);
    if ok {
      ghost var w := amm.View();
      amm.SetHint(NextOf(entry), k + 1);
      assert amm.View() == w;
    }
  }

  /** The second half of amm_select: entry k starts the range; find its end and split there. */
  method SelectEnd(amm: Amm, eaddr: nat, first: Entry, ghost v: seq<Extent>, ghost k: nat)
    returns (ok: bool, ghost m: nat)
    requires amm.Valid() && v == amm.View() && k < |v| && amm.hint == amm.LinkAt(k) && amm.spine[k] == first
    requires first.start <= eaddr <= MAXADDR
    modifies amm`nodes, amm`spine, amm`repr, amm.repr`next, amm.repr`end
    ensures amm.Valid() && fresh(amm.repr - old(amm.repr)) && SameMeaning(v, amm.View(), MAXADDR)
    ensures k < |amm.spine| && amm.spine[k] == first && amm.hint == amm.LinkAt(k)
    ensures ok ==> Isolated(amm.View(), k, m, first.start, eaddr)
  {
    var pentry, entry;
    pentry, entry, m := EntryReaching(amm, eaddr, amm.hint, first, v, k);
    ok := true;
    if entry.end > eaddr {
      var tail;
      ok, tail := SplitBehind(amm, pentry, entry, eaddr, v, k, m);
    }
  }

  /** amm_select up to the entry that starts the range. */
  method SelectStart(amm: Amm, addr: nat, ghost v: seq<Extent>) returns (ok: bool, first: Entry, ghost k: nat)
    requires amm.Valid() && v == amm.View() && addr < MAXADDR
    modifies amm`nodes, amm`spine, amm`repr, amm`hint, amm.repr`next, amm.repr`end
    ensures amm.Valid() && fresh(amm.repr - old(amm.repr)) && SameMeaning(v, amm.View(), MAXADDR)
    ensures ok ==> k < |amm.spine| && amm.spine[k] == first && amm.hint == amm.LinkAt(k) && first.start == addr
  {
    first, k := amm.FindAddr(addr);
    assert amm.View() == v && Covers(v[k], addr) && v[k] == first.Extent();
    if first.start == addr {
      return true, first, k;
    }
    label Found:
    ok, first := SelectFront(amm, addr, first, v, k);
    forall e: Entry | e in amm.repr && e !in old(amm.repr) ensures !old(allocated(e)) {
      assert !old@Found(allocated(e));
    }
    k := k + 1;
  }

  lemma SameMeaningTrans(u: seq<Extent>, v: seq<Extent>, w: seq<Extent>)
    requires SameMeaning(u, v, MAXADDR) && SameMeaning(v, w, MAXADDR)
    ensures SameMeaning(u, w, MAXADDR)
  {
  }

  /** amm_select: splits the entries at both ends of the range, changing the flags of no address,
      and returns the first entry of the range. The source returns null for a range that wraps
      around and when entries run out. */
  method Select(amm: Amm, addr: nat, size: nat) returns (first: Entry?, ghost k: nat, ghost m: nat)
    requires amm.Valid() && addr < WORD && size < WORD && (addr < MAXADDR || size > 0)
    modifies amm`nodes, amm`spine, amm`repr, amm`hint, amm.repr`next, amm.repr`end
    ensures amm.Valid() && fresh(amm.repr - old(amm.repr)) && SameMeaning(old(amm.View()), amm.View(), MAXADDR)
    ensures addr + size >= WORD ==> first == null
    ensures first != null ==> k < |amm.spine| && amm.spine[k] == first && amm.hint == amm.LinkAt(k)
    ensures first != null ==> Isolated(amm.View(), k, m, addr, addr + size)
  {
    ghost var v := amm.View();
    first, k, m := null, 0, 0;
    var eaddr := Wrap(addr + size);
    if eaddr >= addr {
      var ok, entry;
      ok, entry, k := SelectStart(amm, addr, v);
      if ok {
        label Started:
        ghost var w, r := amm.View(), amm.repr;
        ok, m := SelectEnd(amm, eaddr, entry, w, k);
        SameMeaningTrans(v, w, amm.View());
        forall e: Entry | e in amm.repr && e !in old(amm.repr) ensures !old(allocated(e)) {
          assert e !in r ==> !old@Started(allocated(e));
        }
        if ok {
          first := entry;
        }
      }
    }
  }
}
