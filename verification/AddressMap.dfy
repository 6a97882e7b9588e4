/** The address map manager (amm/): a singly linked list of entries with a lookup hint. */
module AddressMap {
  import opened Common
  import opened Extents
  import opened ExtentEdits
  import opened Distinctness

  /** oskit_addr_t is a 32-bit unsigned integer; AMM_MAXADDR is its largest value. */
  const MAXADDR: nat := 0xFFFF_FFFF

  const FREE: Flags := 0
  const RESERVED: Flags := 0x8000_0000
  const ALLOCATED: Flags := 0x4000_0000

  datatype Rc = Ok | Einval | Enomem

  class Entry {
    var next: Entry?
    var start: nat
    var end: nat
    var flags: Flags

    constructor (start: nat, end: nat, flags: Flags)
      ensures this.start == start && this.end == end && this.flags == flags && next == null
    {
      this.start, this.end, this.flags, next := start, end, flags, null;
    }

    function Extent(): Extent
      reads this
    {
      Extents.Extent(start, end, flags)
    }
  }

  /** A `struct amm_entry **`: the head pointer of the map or the next field of an entry. */
  datatype Link = Head | NextOf(entry: Entry)

  /** The link that leads past the first h entries. */
  ghost function LinkPast(s: seq<Entry>, h: nat): Link
    requires h <= |s|
  {
    if h == 0 then Head else NextOf(s[h - 1])
  }

  ghost function ViewOf(s: seq<Entry>): (v: seq<Extent>)
    reads s
    ensures |v| == |s| && forall i :: 0 <= i < |s| ==> v[i] == s[i].Extent()
  {
    seq(|s|, i requires 0 <= i < |s| reads s => s[i].Extent())
  }

  ghost predicate Chained(s: seq<Entry>, i: nat)
    requires i + 1 < |s|
    reads s
  {
    s[i].next == s[i + 1]
  }

  class Amm {
    var nodes: Entry?
    var hint: Link
    ghost var spine: seq<Entry>
    /** The entries a change may touch: those of the list, and those a join has freed. */
    ghost var repr: set<Entry>

    /** The list is the chain of distinct entries `spine`. */
    ghost predicate Linked()
      reads this`nodes, this`spine, this`repr, spine
    {
      && |spine| > 0
      && nodes == spine[0]
      && (forall i: nat {:trigger Chained(spine, i)} :: i < |spine| - 1 ==> Chained(spine, i))
      && spine[|spine| - 1].next == null
      && Distinct(spine)
      && (forall i :: 0 <= i < |spine| ==> spine[i] in repr)
    }

    ghost function View(): (v: seq<Extent>)
      reads this`spine, spine
      ensures |v| == |spine| && forall i :: 0 <= i < |spine| ==> v[i] == spine[i].Extent()
    {
      ViewOf(spine)
    }

    /** The link that points at entry k. */
    ghost function LinkAt(k: nat): Link
      requires k < |spine|
      reads this`spine
    {
      LinkPast(spine, k)
    }

    /** The hint is a link of this list and points at an entry. */
    ghost predicate HintOk()
      reads this`hint, this`spine
    {
      exists k :: 0 <= k < |spine| && hint == LinkAt(k)
    }

    ghost predicate Valid()
      reads this, spine
    {
      Linked() && HintOk() && Tiles(View(), 0, MAXADDR)
    }

    function Deref(l: Link): Entry?
      reads this`nodes, if l.NextOf? then {l.entry} else {}
    {
      if l.Head? then nodes else l.entry.next
    }

    lemma NextAt(k: nat)
      requires Linked() && k < |spine|
      ensures spine[k].next == null <==> k + 1 == |spine|
      ensures k + 1 < |spine| ==> spine[k].next == spine[k + 1] && NextOf(spine[k]) == LinkAt(k + 1)
    {
      assert k + 1 < |spine| ==> Chained(spine, k);
    }

    lemma DerefAt(k: nat)
      requires Linked() && k < |spine|
      ensures Deref(LinkAt(k)) == spine[k]
      ensures forall j :: 0 <= j < |spine| && LinkAt(j) == LinkAt(k) ==> j == k
    {
      if k > 0 {
        OthersDiffer(spine, k - 1);
        assert Chained(spine, k - 1);
      }
    }

    /** amm_init_gen with the default hooks. */
    constructor Gen(flags: Flags)
      ensures Valid() && fresh(repr)
      ensures View() == [Extents.Extent(0, MAXADDR, flags)]
    {
      var entry := new Entry(0, MAXADDR, flags);
      nodes := entry;
      hint := Head;
      spine := [entry];
      repr := {entry};
      new;
      assert hint == LinkAt(0);
    }

    /** amm_free_entry */
    method FreeEntry(entry: Entry)
      modifies this`hint
      ensures hint == if old(Deref(hint)) == entry then Head else old(hint)
    {
      if Deref(hint) == entry {
        hint := Head;
      }
    }

    /** amm_alloc_entry: the allocator may fail. */
    method AllocEntry(start: nat, end: nat, flags: Flags) returns (e: Entry?)
      ensures e != null ==> fresh(e) && e.Extent() == Extents.Extent(start, end, flags)
    {
      if * {
        e := null;
      } else {
        e := new Entry(start, end, flags);
      }
    }

    /** A link of the list never leads to an entry off the list. */
    lemma LiveLink(entry: Entry, h: nat)
      requires Linked() && h <= |spine| && hint == LinkPast(spine, h) && entry !in spine
      ensures Deref(hint) != entry
    {
      if h < |spine| { DerefAt(h); }
    }

    /** `*l = e` */
    method SetLink(l: Link, e: Entry?)
      modifies this`nodes, (if l.NextOf? then {l.entry} else {})`next
      ensures l.Head? ==> nodes == e
      ensures l.NextOf? ==> l.entry.next == e && nodes == old(nodes)
    {
      if l.Head? {
        nodes := e;
      } else {
        l.entry.next := e;
      }
    }

    /** The entries of `pre` other than k are as `v` says and linked as before, except that the
        link into k may have been rewritten. */
    ghost predicate Untouched(pre: seq<Entry>, v: seq<Extent>, k: nat)
      requires k < |pre| == |v|
      reads this`repr, pre
    {
      && Distinct(pre)
      && (forall i :: 0 <= i < |pre| && i != k ==> pre[i].Extent() == v[i] && pre[i] in repr)
      && (forall i: nat {:trigger Chained(pre, i)} :: i < |pre| - 1 && i != k && i + 1 != k ==> Chained(pre, i))
      && (k < |pre| - 1 ==> pre[|pre| - 1].next == null)
    }

    lemma AfterSplit(pre: seq<Entry>, v: seq<Extent>, k: nat, tail: Entry, addr: nat)
      requires k < |pre| == |v| && Untouched(pre, v, k) && pre[k] in repr
      requires forall i :: 0 <= i < |pre| ==> pre[i] != tail
      requires spine == pre[..k + 1] + [tail] + pre[k + 1..] && tail in repr
      requires nodes == pre[0] && (k > 0 ==> pre[k - 1].next == pre[k])
      requires pre[k].next == tail && tail.next == if k + 1 < |pre| then pre[k + 1] else null
      requires pre[k].Extent() == v[k].(end := addr) && tail.Extent() == v[k].(start := addr)
      ensures Linked() && View() == SplitAt(v, k, addr)
    {
      DistinctInsert(pre, k + 1, tail);
      assert spine[k + 1] == tail;
      assert forall i :: 0 <= i <= k ==> spine[i] == pre[i];
      assert forall i :: k + 1 < i < |spine| ==> spine[i] == pre[i - 1];
      forall i: nat | i < |spine| - 1 ensures Chained(spine, i) {
        if i + 1 < k { assert Chained(pre, i); }
        if i > k + 1 { assert Chained(pre, i - 1); }
      }
      var w := SplitAt(v, k, addr);
      forall i | 0 <= i < |spine| ensures View()[i] == w[i] {
        if i < k { assert w[i] == v[i]; }
        if i > k + 1 { assert w[i] == v[i - 1]; }
      }
      assert View() == w;
    }

    /** The field writes of amm_split; the list becomes s. */
    method CutEntry(pentry: Link, entry: Entry, tail: Entry, addr: nat, ghost s: seq<Entry>, ghost r: set<Entry>)
      requires Deref(pentry) == entry && pentry != NextOf(entry)
      requires tail != entry && pentry != NextOf(tail)
      modifies this`nodes, this`spine, this`repr, entry`next, entry`end, tail
      modifies (if pentry.NextOf? then {pentry.entry} else {})`next
      ensures nodes == old(nodes) && spine == s && repr == r
      ensures tail.next == old(entry.next) && tail.Extent() == old(entry.Extent()).(start := addr)
      ensures entry.next == tail && entry.Extent() == old(entry.Extent()).(end := addr)
      ensures pentry.NextOf? ==> pentry.entry.next == entry
    {
      tail.end := entry.end;
      tail.start := addr;
      entry.end := addr;
      tail.flags := entry.flags;
      tail.next := entry.next;
      entry.next := tail;
      SetLink(pentry, entry);
      spine, repr := s, r;
    }

    /** amm_split once the tail entry is allocated. */
    method SplitWith(pentry: Link, entry: Entry, tail: Entry, addr: nat, ghost k: nat)
      requires Linked() && k < |spine| && entry == spine[k] && pentry == LinkAt(k)
      requires entry.start <= addr < entry.end && tail !in repr
      modifies this`nodes, this`spine, this`repr, repr`next, repr`end, tail
      ensures Linked() && View() == SplitAt(old(View()), k, addr)
      ensures spine == old(spine)[..k + 1] + [tail] + old(spine)[k + 1..]
      ensures repr == old(repr) + {tail} && unchanged(`hint)
    {
      ghost var pre, v := spine, View();
      assert forall i :: 0 <= i < |pre| ==> pre[i] != tail;
      DerefAt(k);
      OthersDiffer(pre, k);
      assert k + 1 < |pre| ==> Chained(pre, k);
      CutEntry(pentry, entry, tail, addr, pre[..k + 1] + [tail] + pre[k + 1..], repr + {tail});
      forall i: nat | i < |pre| - 1 && i != k && i + 1 != k ensures Chained(pre, i) {
        assert old(Chained(pre, i));
      }
      AfterSplit(pre, v, k, tail, addr);
    }

    /** amm_split, default hooks. On allocation failure nothing has changed. */
    method Split(pentry: Link, entry: Entry, addr: nat, ghost k: nat) returns (rc: Rc, head: Entry, tail: Entry)
      requires Linked() && k < |spine| && entry == spine[k] && pentry == LinkAt(k)
      requires entry.start <= addr < entry.end
      modifies this`nodes, this`spine, this`repr, repr`next, repr`end
      ensures Linked() && (rc.Ok? || rc.Enomem?) && unchanged(`hint)
      ensures rc.Enomem? ==> spine == old(spine) && View() == old(View())
      ensures rc.Ok? ==> View() == SplitAt(old(View()), k, addr)
      ensures rc.Ok? ==> head == entry && fresh(tail)
      ensures rc.Ok? ==> spine == old(spine)[..k + 1] + [tail] + old(spine)[k + 1..]
      ensures rc.Ok? ==> repr == old(repr) + {tail}
      ensures rc.Enomem? ==> repr == old(repr)
    {
      head, tail, rc := entry, entry, Enomem;
      var e := AllocEntry(addr, entry.end, entry.flags);
      if e != null {
        tail, rc := e, Ok;
        SplitWith(pentry, entry, tail, addr, k);
      }
    }

    lemma AfterDelete(pre: seq<Entry>, v: seq<Extent>, k: nat)
      requires k + 1 < |pre| == |v| && Untouched(pre, v, k)
      requires spine == pre[..k] + pre[k + 1..]
      requires k == 0 ==> nodes == pre[1]
      requires k > 0 ==> nodes == pre[0] && pre[k - 1].next == pre[k + 1]
      ensures Linked() && pre[k] !in spine && View() == v[..k] + v[k + 1..]
    {
      DistinctRemove(pre, k, k + 1);
      forall i: nat | i < |spine| - 1 ensures Chained(spine, i) {
        if i + 1 < k { assert Chained(pre, i); }
        if i >= k { assert Chained(pre, i + 1); }
      }
      var w := v[..k] + v[k + 1..];
      forall i | 0 <= i < |spine| ensures View()[i] == w[i] {
        if i >= k { assert spine[i] == pre[i + 1] && w[i] == v[i + 1]; }
      }
    }

    /** `*pentry = entry->next`; the list becomes s. */
    method Bypass(pentry: Link, entry: Entry, ghost s: seq<Entry>, ghost r: set<Entry>)
      requires pentry != NextOf(entry)
      modifies this`nodes, this`spine, this`repr, (if pentry.NextOf? then {pentry.entry} else {})`next
      ensures spine == s && repr == r
      ensures pentry.Head? ==> nodes == entry.next
      ensures pentry.NextOf? ==> pentry.entry.next == entry.next && nodes == old(nodes)
    {
      SetLink(pentry, entry.next);
      spine, repr := s, r;
    }

    /** Entry k leaves the list. */
    method Unlink(pentry: Link, entry: Entry, ghost k: nat)
      requires Linked() && k + 1 < |spine| && entry == spine[k] && pentry == LinkAt(k)
      modifies this`nodes, this`spine, this`repr, repr`next
      ensures Linked() && entry !in spine && entry.next == old(entry.next) && repr == old(repr) - {entry}
      ensures spine == old(spine)[..k] + old(spine)[k + 1..]
      ensures View() == old(View())[..k] + old(View())[k + 1..]
    {
      ghost var pre, v := spine, View();
      OthersDiffer(pre, k);
      if k > 0 { OthersDiffer(pre, k - 1); }
      assert Chained(pre, k);
      Bypass(pentry, entry, pre[..k] + pre[k + 1..], repr - {entry});
      forall i: nat | i < |pre| - 1 && i != k && i + 1 != k ensures Chained(pre, i) {
        assert old(Chained(pre, i));
      }
      AfterDelete(pre, v, k);
    }

    /** One round of the deletion loop of amm_modify. */
    method Delete(pentry: Link, entry: Entry, ghost k: nat, ghost h: nat)
      requires Linked() && k + 1 < |spine| && entry == spine[k] && pentry == LinkAt(k)
      requires h <= k && hint == LinkPast(spine, h)
      modifies this`nodes, this`spine, this`repr, this`hint, repr`next
      ensures Linked() && unchanged(`hint) && repr == old(repr) - {entry}
      ensures spine == old(spine)[..k] + old(spine)[k + 1..]
      ensures View() == old(View())[..k] + old(View())[k + 1..]
    {
      Unlink(pentry, entry, k);
      LiveLink(entry, h);
      FreeEntry(entry);
    }

    lemma AfterReplace(pre: seq<Entry>, v: seq<Extent>, k: nat, n: Entry)
      requires k < |pre| == |v| && Untouched(pre, v, k) && n !in pre && n in repr
      requires spine == pre[k := n]
      requires k == 0 ==> nodes == n
      requires k > 0 ==> nodes == pre[0] && pre[k - 1].next == n
      requires n.next == if k + 1 < |pre| then pre[k + 1] else null
      ensures Linked() && pre[k] !in spine && View() == v[k := n.Extent()]
    {
      DistinctUpdate(pre, k, n);
      forall i: nat | i < |spine| - 1 ensures Chained(spine, i) {
        if i != k && i + 1 != k { assert Chained(pre, i); }
      }
      assert View() == v[k := n.Extent()];
    }

    /** `*pentry = nentry; nentry->next = entry->next`; the list becomes s. */
    method PutInPlace(pentry: Link, entry: Entry, nentry: Entry, ghost s: seq<Entry>, ghost r: set<Entry>)
      requires pentry != NextOf(entry) && pentry != NextOf(nentry) && entry != nentry
      modifies this`nodes, this`spine, this`repr, nentry`next, (if pentry.NextOf? then {pentry.entry} else {})`next
      ensures spine == s && repr == r && nentry.next == old(entry.next)
      ensures pentry.Head? ==> nodes == nentry
      ensures pentry.NextOf? ==> pentry.entry.next == nentry && nodes == old(nodes)
    {
      SetLink(pentry, nentry);
      nentry.next := entry.next;
      spine, repr := s, r;
    }

    method Relink(pentry: Link, entry: Entry, nentry: Entry, ghost k: nat)
      requires Linked() && k < |spine| && entry == spine[k] && pentry == LinkAt(k)
      requires nentry !in repr
      modifies this`nodes, this`spine, this`repr, repr`next, nentry`next
      ensures Linked() && entry !in spine && repr == old(repr) - {entry} + {nentry}
      ensures spine == old(spine)[k := nentry]
      ensures View() == old(View())[k := nentry.Extent()]
    {
      ghost var pre, v := spine, View();
      OthersDiffer(pre, k);
      if k > 0 { OthersDiffer(pre, k - 1); }
      assert k + 1 < |pre| ==> Chained(pre, k);
      PutInPlace(pentry, entry, nentry, pre[k := nentry], repr - {entry} + {nentry});
      forall i: nat | i < |pre| - 1 && i != k && i + 1 != k ensures Chained(pre, i) {
        assert old(Chained(pre, i));
      }
      AfterReplace(pre, v, k, nentry);
    }

    /** Entry k makes way for a new entry. */
    method Replace(pentry: Link, entry: Entry, nentry: Entry, ghost k: nat, ghost h: nat)
      requires Linked() && k < |spine| && entry == spine[k] && pentry == LinkAt(k)
      requires h <= k && hint == LinkPast(spine, h)
      requires nentry !in repr
      modifies this`nodes, this`spine, this`repr, this`hint, repr`next, nentry`next
      ensures Linked() && unchanged(`hint) && repr == old(repr) - {entry} + {nentry}
      ensures spine == old(spine)[k := nentry]
      ensures View() == old(View())[k := nentry.Extent()]
    {
      Relink(pentry, entry, nentry, k);
      LiveLink(entry, h);
      FreeEntry(entry);
    }

    lemma AfterJoin(pre: seq<Entry>, v: seq<Extent>, k: nat)
      requires k + 1 < |pre| == |v| && Untouched(pre, v, k) && pre[k] in repr
      requires spine == pre[..k + 1] + pre[k + 2..]
      requires nodes == pre[0] && (k > 0 ==> pre[k - 1].next == pre[k])
      requires pre[k].next == if k + 2 < |pre| then pre[k + 2] else null
      requires pre[k].Extent() == Extents.Extent(v[k].start, v[k + 1].end, v[k + 1].flags)
      ensures Linked() && pre[k + 1] !in spine && View() == JoinAt(v, k)
    {
      DistinctRemove(pre, k + 1, k + 2);
      forall i: nat | i < |spine| - 1 ensures Chained(spine, i) {
        if i + 1 < k { assert Chained(pre, i); }
        if i > k { assert Chained(pre, i + 1); }
      }
      var w := JoinAt(v, k);
      forall i | 0 <= i < |spine| ensures View()[i] == w[i] {
        if i > k { assert spine[i] == pre[i + 1] && w[i] == v[i + 1]; }
      }
    }

    /** The field writes of amm_join; the list becomes s. */
    method FuseEntries(pentry: Link, head: Entry, tail: Entry, ghost s: seq<Entry>)
      requires Deref(pentry) == head && pentry != NextOf(head) && head != tail
      modifies this`nodes, this`spine, head`next, head`end, head`flags
      modifies (if pentry.NextOf? then {pentry.entry} else {})`next
      ensures nodes == old(nodes) && spine == s
      ensures head.next == old(tail.next)
      ensures head.Extent() == Extents.Extent(old(head.start), old(tail.end), old(tail.flags))
      ensures pentry.NextOf? ==> pentry.entry.next == head
    {
      head.end := tail.end;
      head.flags := tail.flags;
      head.next := tail.next;
      SetLink(pentry, head);
      spine := s;
    }

    method Absorb(pentry: Link, head: Entry, tail: Entry, ghost k: nat)
      requires Linked() && k + 1 < |spine| && head == spine[k] && tail == spine[k + 1] && pentry == LinkAt(k)
      modifies this`nodes, this`spine, repr`next, repr`end, repr`flags
      ensures Linked() && tail !in spine
      ensures spine == old(spine)[..k + 1] + old(spine)[k + 2..]
      ensures View() == JoinAt(old(View()), k)
      ensures forall i :: 0 <= i < |old(spine)| && i != k ==> old(spine)[i].Extent() == old(spine[i].Extent())
    {
      ghost var pre, v := spine, View();
      DerefAt(k);
      OthersDiffer(pre, k);
      OthersDiffer(pre, k + 1);
      assert k + 2 < |pre| ==> Chained(pre, k + 1);
      FuseEntries(pentry, head, tail, pre[..k + 1] + pre[k + 2..]);
      forall i: nat | i < |pre| - 1 && i != k && i + 1 != k ensures Chained(pre, i) {
        assert old(Chained(pre, i));
      }
      AfterJoin(pre, v, k);
    }

    /** Links up to entry k + 1 lead from the same entries as before. */
    lemma SameLinkPast(pre: seq<Entry>, post: seq<Entry>, k: nat, h: nat)
      requires k + 1 < |pre| && h <= k + 1 && post == pre[..k + 1] + pre[k + 2..]
      ensures h <= |post| && LinkPast(post, h) == LinkPast(pre, h)
    {
      if h > 0 { assert post[h - 1] == pre[h - 1]; }
    }

    /** amm_join, default hooks. */
    method Join(pentry: Link, head: Entry, tail: Entry, ghost k: nat, ghost h: nat) returns (entry: Entry)
      requires Linked() && k + 1 < |spine| && head == spine[k] && tail == spine[k + 1] && pentry == LinkAt(k)
      requires h <= k + 1 && hint == LinkPast(spine, h)
      requires head.end == tail.start && head.flags == tail.flags
      modifies this`nodes, this`spine, this`repr, this`hint, repr`next, repr`end, repr`flags
      ensures Linked() && unchanged(`hint) && entry == head && repr == old(repr)
      ensures spine == old(spine)[..k + 1] + old(spine)[k + 2..]
      ensures View() == JoinAt(old(View()), k)
      ensures forall i :: 0 <= i < |old(spine)| && i != k ==> old(spine)[i].Extent() == old(spine[i].Extent())
    {
      ghost var pre := spine;
      Absorb(pentry, head, tail, k);
      SameLinkPast(pre, spine, k, h);
      LiveLink(tail, h);
      FreeEntry(tail);
      entry := head;
    }

    /** amm_find_addr. The assertion of the source that the scan never comes back to the hint
        is the assert in the loop of `Scan`. */
    method FindAddr(addr: nat) returns (entry: Entry, ghost k: nat)
      requires Valid() && addr < MAXADDR
      modifies this`hint
      ensures Valid() && View() == old(View()) && repr == old(repr) && spine == old(spine)
      ensures k == IndexOf(View(), 0, MAXADDR, addr)
      ensures entry == spine[k] && hint == LinkAt(k)
    {
      ghost var v := View();
      k := IndexOf(v, 0, MAXADDR, addr);
      OthersMiss(v, k, addr);
      entry := Scan(addr, k);
      assert View() == v;
    }

    method Scan(addr: nat, ghost want: nat) returns (entry: Entry)
      requires Linked() && HintOk()
      requires want < |spine| && spine[want].start <= addr < spine[want].end
      requires forall i :: 0 <= i < want ==> spine[i].start <= addr && spine[i].end <= addr
      requires forall i :: want < i < |spine| ==> addr < spine[i].start
      modifies this`hint
      ensures entry == spine[want] && hint == LinkAt(want)
    {
      ghost var h: nat :| h < |spine| && hint == LinkAt(h);
      var pentry := hint;
      ghost var k := h;
      DerefAt(h);
      DerefAt(0);
      if addr < Deref(pentry).start {
        pentry := Head;
        k := 0;
      }
      entry := Deref(pentry);
      while !(entry.start <= addr < entry.end)
        invariant k <= want && pentry == LinkAt(k) && entry == spine[k]
        invariant hint == LinkAt(h) && (k < h ==> want < h)
        decreases want - k
      {
        if entry.next != null {
          pentry := NextOf(entry);
        } else {
          pentry := Head;
        }
        assert k < want && Chained(spine, k);
        k := k + 1;
        DerefAt(k);
        assert pentry == LinkAt(k) && hint == LinkAt(h);
        assert pentry != hint;
        entry := Deref(pentry);
      }
      hint := pentry;
    }

    /** The list is the entries `front`, meaning `vf`, followed by `rest`, meaning `vr`. */
    ghost predicate Parts(front: seq<Entry>, vf: seq<Extent>, rest: seq<Entry>, vr: seq<Extent>)
      reads this`nodes, this`spine, this`repr, spine
    {
      && Linked() && spine == front + rest && View() == vf + vr
      && |front| == |vf| && |rest| == |vr| > 0
    }

    /** Split the entry after `front` at eaddr. */
    method SplitNow(pentry: Link, last: Entry, eaddr: nat, ghost front: seq<Entry>, ghost vf: seq<Extent>,
                    ghost rest: seq<Entry>, ghost vr: seq<Extent>) returns (rc: Rc, tail: Entry)
      requires Parts(front, vf, rest, vr) && last == rest[0] && pentry == LinkPast(front, |front|)
      requires vr[0].start <= eaddr < vr[0].end
      modifies this`nodes, this`spine, this`repr, repr`next, repr`end
      ensures (rc.Ok? || rc.Enomem?) && unchanged(`hint)
      ensures rc.Enomem? ==> Parts(front, vf, rest, vr) && repr == old(repr)
      ensures rc.Ok? ==> Parts(front, vf, [last, tail] + rest[1..], [vr[0].(end := eaddr)] + Back(vr, eaddr))
      ensures rc.Ok? ==> fresh(tail) && repr == old(repr) + {tail}
    {
      ghost var k, pre, v := |front|, spine, View();
      PartsLink(front, vf, rest, vr);
      assert v[k] == vr[0];
      var head;
      rc, head, tail := Split(pentry, last, eaddr, k);
      if rc.Ok? {
        SeamInsert(pre, front, rest, k, tail);
        SplitSeam(v, vf, vr, k, eaddr);
      }
    }

    /** Split the entry after `front` at eaddr unless it ends there. */
    method SplitOff(pentry: Link, last: Entry, eaddr: nat, ghost front: seq<Entry>, ghost vf: seq<Extent>,
                    ghost rest: seq<Entry>, ghost vr: seq<Extent>)
      returns (rc: Rc, tail: Entry, ghost rest': seq<Entry>, ghost vr': seq<Extent>)
      requires Parts(front, vf, rest, vr) && last == rest[0] && pentry == LinkPast(front, |front|)
      requires vr[0].start <= eaddr <= vr[0].end
      modifies this`nodes, this`spine, this`repr, repr`next, repr`end
      ensures (rc.Ok? || rc.Enomem?) && fresh(repr - old(repr)) && old(repr) <= repr && unchanged(`hint)
      ensures Parts(front, vf, rest', vr') && last == rest'[0]
      ensures rc.Enomem? ==> vr' == vr && rest' == rest
      ensures rc.Ok? ==> vr' == [vr[0].(end := eaddr)] + Back(vr, eaddr) && last.end == eaddr
      ensures rc.Ok? && vr[0].end > eaddr ==> rest' == [last, tail] + rest[1..]
    {
      rest', vr', rc, tail := rest, vr, Ok, last;
      PartsSeam(front, vf, rest, vr);
      if last.end > eaddr {
        rc, tail := SplitNow(pentry, last, eaddr, front, vf, rest, vr);
        if rc.Ok? {
          rest', vr' := [last, tail] + rest[1..], [vr[0].(end := eaddr)] + Back(vr, eaddr);
          PartsSeam(front, vf, rest', vr');
          assert repr - old(repr) <= {tail};
        }
      } else {
        BackUncut(vr, eaddr);
      }
    }

    lemma Regroup(front: seq<Entry>, vf: seq<Extent>, rest: seq<Entry>, vr: seq<Extent>)
      requires Parts(front, vf, rest, vr) && |rest| > 1
      ensures Parts(front + [rest[0]], vf + [vr[0]], rest[1..], vr[1..])
    {
      assert front + rest == (front + [rest[0]]) + rest[1..];
      assert vf + vr == (vf + [vr[0]]) + vr[1..];
    }

    /** First phase of amm_modify and amm_select: split off what lies before addr. */
    method SplitFront(pentry: Link, entry: Entry, addr: nat, ghost front: seq<Entry>, ghost vf: seq<Extent>,
                      ghost rest: seq<Entry>, ghost vr: seq<Extent>, ghost h: nat)
      returns (rc: Rc, pentry': Link, entry': Entry, ghost front': seq<Entry>, ghost rest': seq<Entry>)
      requires Parts(front, vf, rest, vr) && entry == rest[0] && pentry == LinkPast(front, |front|)
      requires h <= |front| && hint == LinkPast(front, h)
      requires vr[0].start <= addr < vr[0].end
      modifies this`nodes, this`spine, this`repr, repr`next, repr`end
      ensures (rc.Ok? || rc.Enomem?) && fresh(repr - old(repr)) && old(repr) <= repr && unchanged(`hint)
      ensures rc.Enomem? ==> Parts(front, vf, rest, vr)
      ensures rc.Ok? ==> Parts(front', Cut(vf, vr, addr), rest', Uncut(vr, addr))
      ensures rc.Ok? ==> entry' == rest'[0] && pentry' == LinkPast(front', |front'|) && hint == LinkPast(front', h)
      ensures rc.Ok? && vr[0].start < addr ==> front' == front + [entry]
      ensures rc.Ok? && vr[0].start == addr ==> front' == front && entry' == entry
    {
      pentry', entry', front', rest', rc := pentry, entry, front, rest, Ok;
      assert View()[|front|] == vr[0];
      if entry.start < addr {
        ghost var vr';
        rc, entry', rest', vr' := SplitOff(pentry, entry, addr, front, vf, rest, vr);
        pentry' := NextOf(entry);
        if rc.Ok? {
          Regroup(front, vf, rest', vr');
          assert vr'[1..] == Uncut(vr, addr);
          front', rest' := front + [entry], rest'[1..];
        }
      } else {
        assert Uncut(vr, addr) == vr;
      }
    }

    lemma PartsLink(front: seq<Entry>, vf: seq<Extent>, rest: seq<Entry>, vr: seq<Extent>)
      requires Parts(front, vf, rest, vr)
      ensures LinkAt(|front|) == LinkPast(front, |front|)
    {
    }

    lemma PartsSeam(front: seq<Entry>, vf: seq<Extent>, rest: seq<Entry>, vr: seq<Extent>)
      requires Parts(front, vf, rest, vr)
      ensures var p := |front|;
        && spine[p] == rest[0] && View()[p] == vr[0] && LinkAt(p) == LinkPast(front, p)
        && (p > 0 ==> spine[p - 1] == front[p - 1] && View()[p - 1] == vf[p - 1] == front[p - 1].Extent())
    {
    }

    lemma HintInParts(front: seq<Entry>, vf: seq<Extent>, rest: seq<Entry>, vr: seq<Extent>, h: nat)
      requires Parts(front, vf, rest, vr) && h <= |front| && hint == LinkPast(front, h)
      ensures HintOk()
    {
      assert hint == LinkAt(h);
    }

    method DropHead(pentry: Link, entry: Entry, ghost front: seq<Entry>, ghost vf: seq<Extent>,
                    ghost rest: seq<Entry>, ghost vr: seq<Extent>, ghost h: nat)
      requires Parts(front, vf, rest, vr) && |rest| > 1
      requires entry == rest[0] && pentry == LinkPast(front, |front|) && h <= |front| && hint == LinkPast(front, h)
      modifies this`nodes, this`spine, this`repr, this`hint, repr`next
      ensures Parts(front, vf, rest[1..], vr[1..])
      ensures unchanged(`hint) && repr == old(repr) - {entry}
    {
      ghost var k := |front|;
      PartsLink(front, vf, rest, vr);
      SeamDrop(spine, front, rest, k);
      SeamDrop(View(), vf, vr, k);
      Delete(pentry, entry, k, h);
    }

    /** One round of the deletion loop. An entry that is off the list already stays as it is. */
    method DropNext(pentry: Link, entry: Entry, ghost first: Entry, ghost front: seq<Entry>, ghost vf: seq<Extent>,
                    ghost rest: seq<Entry>, ghost vr: seq<Extent>, ghost h: nat) returns (entry': Entry)
      requires Parts(front, vf, rest, vr) && |rest| > 1
      requires entry == rest[0] && pentry == LinkPast(front, |front|) && (first == entry || first !in repr)
      requires h <= |front| && hint == LinkPast(front, h)
      modifies this`nodes, this`spine, this`repr, this`hint, repr`next
      ensures Parts(front, vf, rest[1..], vr[1..]) && unchanged(`hint) && repr <= old(repr)
      ensures entry' == rest[1] && entry'.end == vr[1].end
      ensures first.end == old(first.end) && first !in repr
    {
      DropHead(pentry, entry, front, vf, rest, vr, h);
      PartsSeam(front, vf, rest[1..], vr[1..]);
      DerefAt(|front|);
      entry' := Deref(pentry);
    }

    /** The deletion loop of amm_modify: the first m entries of `rest` end before eaddr. */
    method DeleteCovered(pentry: Link, first: Entry, eaddr: nat, ghost front: seq<Entry>, ghost vf: seq<Extent>,
                         ghost rest: seq<Entry>, ghost vr: seq<Extent>, ghost m: nat, ghost h: nat)
      returns (entry: Entry)
      requires Parts(front, vf, rest, vr) && m < |rest| && first == rest[0] && pentry == LinkPast(front, |front|)
      requires h <= |front| && hint == LinkPast(front, h)
      requires vr[m].end >= eaddr && forall i :: 0 <= i < m ==> vr[i].end < eaddr
      modifies this`nodes, this`spine, this`repr, this`hint, repr`next
      ensures Parts(front, vf, rest[m..], vr[m..]) && unchanged(`hint)
      ensures entry == rest[m]
      ensures first.end == old(first.end) && repr <= old(repr) && (m > 0 ==> first !in repr)
    {
      entry := first;
      ghost var j := 0;
      assert View()[|front|] == vr[0];
      while entry.end < eaddr
        invariant 0 <= j <= m && Parts(front, vf, rest[j..], vr[j..]) && unchanged(`hint)
        invariant entry == rest[j] && entry.end == vr[j].end
        invariant first.end == old(first.end) && repr <= old(repr)
        invariant (first == entry || first !in repr) && (j > 0 ==> first !in repr)
        decreases m - j
      {
        assert vr[j].end < eaddr && j != m;
        entry := DropNext(pentry, entry, first, front, vf, rest[j..], vr[j..], h);
        assert rest[j..][1..] == rest[j + 1..] && vr[j..][1..] == vr[j + 1..];
        j := j + 1;
      }
      assert j == m;
    }

    method InstallWith(pentry: Link, last: Entry, nentry: Entry, ghost x: Extent, ghost front: seq<Entry>,
                       ghost vf: seq<Extent>, ghost rest: seq<Entry>, ghost vr: seq<Extent>, ghost h: nat)
      requires Parts(front, vf, rest, vr) && last == rest[0] && pentry == LinkPast(front, |front|)
      requires h <= |front| && hint == LinkPast(front, h)
      requires nentry !in repr && nentry.Extent() == x
      modifies this`nodes, this`spine, this`repr, this`hint, repr`next, nentry`next
      ensures unchanged(`hint) && repr == old(repr) - {last} + {nentry}
      ensures Parts(front, vf, [nentry] + rest[1..], [x] + vr[1..])
      ensures last.end == old(last.end)
    {
      SeamUpdate(spine, front, rest, |front|, nentry);
      SeamUpdate(View(), vf, vr, |front|, x);
      PartsLink(front, vf, rest, vr);
      Replace(pentry, last, nentry, |front|, h);
    }

    /** Fourth phase of amm_modify: a new entry over [addr, eaddr) takes the place of the entry
        that ends at eaddr. */
    method Install(pentry: Link, last: Entry, addr: nat, eaddr: nat, nflags: Flags, ghost front: seq<Entry>,
                   ghost vf: seq<Extent>, ghost rest: seq<Entry>, ghost vr: seq<Extent>, ghost h: nat)
      returns (rc: Rc, nentry: Entry)
      requires Parts(front, vf, rest, vr) && last == rest[0] && pentry == LinkPast(front, |front|)
      requires h <= |front| && hint == LinkPast(front, h)
      modifies this`nodes, this`spine, this`repr, this`hint, repr`next
      ensures unchanged(`hint) && (rc.Ok? || rc.Enomem?) && fresh(repr - old(repr))
      ensures rc.Enomem? ==> Parts(front, vf, rest, vr)
      ensures rc.Ok? ==> Parts(front, vf, [nentry] + rest[1..], [Extents.Extent(addr, eaddr, nflags)] + vr[1..])
      ensures rc.Ok? ==> last !in repr && last.end == old(last.end)
    {
      nentry, rc := last, Enomem;
      var e := AllocEntry(addr, eaddr, nflags);
      if e != null {
        rc, nentry := Ok, e;
        InstallWith(pentry, last, nentry, Extents.Extent(addr, eaddr, nflags), front, vf, rest, vr, h);
      }
    }

    /** amm_modify after the deletion loop, up to the joins: `last` is the entry that reaches eaddr. */
    method PutOver(pentry: Link, last: Entry, addr: nat, eaddr: nat, nflags: Flags, ghost front: seq<Entry>,
                   ghost vf: seq<Extent>, ghost rest: seq<Entry>, ghost vr: seq<Extent>, ghost h: nat)
      returns (rc: Rc, nentry: Entry, ghost rest'': seq<Entry>)
      requires Parts(front, vf, rest, vr) && last == rest[0] && pentry == LinkPast(front, |front|)
      requires h <= |front| && hint == LinkPast(front, h) && vr[0].start <= eaddr <= vr[0].end
      modifies this`nodes, this`spine, this`repr, this`hint, repr`next, repr`end
      ensures unchanged(`hint) && (rc.Ok? || rc.Enomem?) && fresh(repr - old(repr))
      ensures rc.Ok? ==> Parts(front, vf, rest'', [Extents.Extent(addr, eaddr, nflags)] + Back(vr, eaddr))
      ensures rc.Enomem? ==> Linked() && HintOk() && Leftover(View(), vf, vr, eaddr)
      ensures rc.Ok? ==> nentry == rest''[0] && last !in repr && last.end == eaddr
    {
      nentry, rest'' := last, rest;
      ghost var r0 := repr;
      ghost var rest', vr';
      var tail;
      rc, tail, rest', vr' := SplitOff(pentry, last, eaddr, front, vf, rest, vr);
      HintInParts(front, vf, rest', vr', h);
      if rc.Enomem? {
        return;
      }
      ghost var r1 := repr;
      label Cut:
      rc, nentry := Install(pentry, last, addr, eaddr, nflags, front, vf, rest', vr', h);
      forall e: Entry | e in repr && e !in r0 ensures !old(allocated(e)) {
        if e !in r1 { assert !old@Cut(allocated(e)); }
      }
      rest'' := [nentry] + rest'[1..];
    }

    /** amm_modify from the deletion loop up to the joins. */
    method Fill(pentry: Link, first: Entry, addr: nat, eaddr: nat, nflags: Flags, ghost front: seq<Entry>,
                ghost vf: seq<Extent>, ghost rest: seq<Entry>, ghost vr: seq<Extent>, ghost d: nat, ghost h: nat)
      returns (rc: Rc, nentry: Entry, ghost rest'': seq<Entry>)
      requires Parts(front, vf, rest, vr) && d < |rest| && first == rest[0] && pentry == LinkPast(front, |front|)
      requires h <= |front| && hint == LinkPast(front, h)
      requires Reaching(vr, d, eaddr)
      modifies this`nodes, this`spine, this`repr, this`hint, repr`next, repr`end
      ensures unchanged(`hint) && (rc.Ok? || rc.Enomem?) && fresh(repr - old(repr))
      ensures rc.Ok? ==> Parts(front, vf, rest'', [Extents.Extent(addr, eaddr, nflags)] + Back(vr[d..], eaddr))
      ensures rc.Enomem? ==> Linked() && HintOk() && Leftover(View(), vf, vr[d..], eaddr)
      ensures rc.Ok? ==> nentry == rest''[0] && first !in repr
      ensures rc.Ok? && d > 0 ==> first.end == vr[0].end
      ensures rc.Ok? && d == 0 ==> first.end == eaddr
    {
      assert View()[|front|] == vr[0];
      ghost var r0 := repr;
      var last := DeleteCovered(pentry, first, eaddr, front, vf, rest, vr, d, h);
      ghost var r1 := repr;
      label Deleted:
      rc, nentry, rest'' := PutOver(pentry, last, addr, eaddr, nflags, front, vf, rest[d..], vr[d..], h);
      forall e: Entry | e in repr && e !in r0 ensures !old(allocated(e)) {
        assert !old@Deleted(allocated(e));
      }
      assert d > 0 ==> first !in repr;
    }

    /** amm_modify up to the joins: the entry after `front` covers addr, and entry d of those
        from addr on is the first to reach eaddr. */
    method Carve(pentry: Link, entry: Entry, addr: nat, eaddr: nat, nflags: Flags, ghost front: seq<Entry>,
                 ghost vf: seq<Extent>, ghost rest: seq<Entry>, ghost vr: seq<Extent>, ghost d: nat, ghost h: nat)
      returns (rc: Rc, nentry: Entry, pentry': Link, ghost front': seq<Entry>, ghost rest': seq<Entry>)
      requires Parts(front, vf, rest, vr) && entry == rest[0] && pentry == LinkPast(front, |front|)
      requires h <= |front| && hint == LinkPast(front, h)
      requires vr[0].start <= addr < vr[0].end
      requires d < |vr| && Reaching(Uncut(vr, addr), d, eaddr)
      modifies this`nodes, this`spine, this`repr, this`hint, repr`next, repr`end
      ensures unchanged(`hint) && (rc.Ok? || rc.Enomem?) && fresh(repr - old(repr))
      ensures rc.Ok? ==> Parts(front', Cut(vf, vr, addr), rest',
                               [Extents.Extent(addr, eaddr, nflags)] + Back(Uncut(vr, addr)[d..], eaddr))
      ensures rc.Ok? ==> nentry == rest'[0] && pentry' == LinkPast(front', |front'|) && hint == LinkPast(front', h)
      ensures rc.Enomem? ==> Linked() && HintOk()
      ensures rc.Enomem? ==> View() == vf + vr || Leftover(View(), Cut(vf, vr, addr), Uncut(vr, addr)[d..], eaddr)
      ensures rc.Ok? && vr[0].start < addr ==> front' == front + [entry]
      ensures rc.Ok? && vr[0].start == addr ==> front' == front && entry !in repr
      ensures rc.Ok? && vr[0].start == addr && d > 0 ==> entry.end == vr[0].end
      ensures rc.Ok? && vr[0].start == addr && d == 0 ==> entry.end == eaddr
    {
      var entry';
      ghost var r0 := repr;
      HintInParts(front, vf, rest, vr, h);
      rc, pentry', entry', front', rest' := SplitFront(pentry, entry, addr, front, vf, rest, vr, h);
      nentry := entry;
      if rc.Enomem? {
        HintInParts(front, vf, rest, vr, h);
        return;
      }
      ghost var r1 := repr;
      label Split:
      ghost var vf', vr' := Cut(vf, vr, addr), Uncut(vr, addr);
      rc, nentry, rest' := Fill(pentry', entry', addr, eaddr, nflags, front', vf', rest', vr', d, h);
      forall e: Entry | e in repr && e !in r0 ensures !old(allocated(e)) {
        if e !in r1 { assert !old@Split(allocated(e)); }
      }
    }

    /** The search of amm_modify for the link to the entry before the new one. */
    method LinkTo(e: Entry, ghost k: nat) returns (l: Link)
      requires Linked() && k < |spine| && e == spine[k]
      ensures l == LinkAt(k)
    {
      l := Head;
      ghost var i := 0;
      DerefAt(0);
      OthersDiffer(spine, k);
      while Deref(l) != e
        invariant 0 <= i <= k && l == LinkAt(i) && Deref(l) == spine[i]
        decreases k - i
      {
        l := NextOf(Deref(l));
        i := i + 1;
        DerefAt(i);
      }
    }

    /** Join the new entry with the one before it. */
    method JoinWithPrev(hentry: Entry, nentry: Entry, ghost p: nat, ghost h: nat) returns (pentry': Link)
      requires Linked() && 0 < p < |spine| && nentry == spine[p] && hentry == spine[p - 1] && h <= p
      requires hint == LinkPast(spine, h)
      requires hentry.end == nentry.start && hentry.flags == nentry.flags
      modifies this`nodes, this`spine, this`repr, this`hint, repr`next, repr`end, repr`flags
      ensures Linked() && unchanged(`hint) && repr == old(repr) && p - 1 < |spine|
      ensures View() == JoinAt(old(View()), p - 1)
      ensures hentry == spine[p - 1] && pentry' == LinkAt(p - 1) && h <= p && hint == LinkPast(spine, h)
    {
      pentry' := LinkTo(hentry, p - 1);
      var _ := Join(pentry', hentry, nentry, p - 1, h);
      assert h > 0 ==> spine[h - 1] == old(spine)[h - 1];
    }

    /** Join the new entry with the one before it if the flags agree. */
    method JoinBefore(pentry: Link, nentry: Entry, ghost p: nat, ghost h: nat)
      returns (pentry': Link, nentry': Entry, ghost p': nat)
      requires Linked() && p < |spine| && nentry == spine[p] && pentry == LinkAt(p) && h <= p
      requires hint == LinkPast(spine, h)
      requires p > 0 ==> View()[p - 1].end == View()[p].start
      modifies this`nodes, this`spine, this`repr, this`hint, repr`next, repr`end, repr`flags
      ensures Linked() && unchanged(`hint) && repr == old(repr)
      ensures p' < |spine| && (View(), p') == JoinPrev(old(View()), p)
      ensures nentry' == spine[p'] && pentry' == LinkAt(p') && h <= p' + 1 && hint == LinkPast(spine, h)
      ensures p' == p ==> spine == old(spine)
    {
      pentry', nentry', p' := pentry, nentry, p;
      assert spine[..p + 1] == spine[..p] + [spine[p]];
      if pentry != Head {
        var hentry := pentry.entry;
        assert View()[p - 1] == hentry.Extent() && View()[p] == nentry.Extent();
        if hentry.flags == nentry.flags {
          pentry' := JoinWithPrev(hentry, nentry, p, h);
          nentry', p' := hentry, p - 1;
        }
      }
    }

    /** Join the new entry with the one after it if the flags agree. */
    method JoinAfter(pentry: Link, nentry: Entry, ghost p: nat, ghost h: nat)
      requires Linked() && p < |spine| && nentry == spine[p] && pentry == LinkAt(p) && h <= p + 1
      requires hint == LinkPast(spine, h)
      requires p + 1 < |spine| ==> View()[p].end == View()[p + 1].start
      modifies this`nodes, this`spine, this`repr, this`hint, repr`next, repr`end, repr`flags
      ensures Linked() && unchanged(`hint) && repr == old(repr)
      ensures p < |spine| && View() == JoinNext(old(View()), p)
      ensures pentry == LinkAt(p) && nentry == spine[p]
      ensures forall i :: 0 <= i < |old(spine)| && i != p ==> old(spine)[i].Extent() == old(spine[i].Extent())
    {
      assert p + 1 < |spine| ==> Chained(spine, p);
      if nentry.next != null {
        var tentry := nentry.next;
        assert View()[p] == nentry.Extent() && View()[p + 1] == tentry.Extent();
        if nentry.flags == tentry.flags {
          var _ := Join(pentry, nentry, tentry, p, h);
        }
      }
    }

    /** `amm->hint = l` */
    method SetHint(l: Link, ghost p: nat)
      requires Linked() && p < |spine| && l == LinkAt(p)
      modifies this`hint
      ensures Linked() && HintOk() && View() == old(View()) && hint == l
    {
      hint := l;
      assert hint == LinkAt(p);
    }

    /** The joins of amm_modify and the final update of the hint. An entry before the new one
        with other flags is left as it is. */
    method JoinAround(pentry: Link, nentry: Entry, ghost c: seq<Extent>, ghost p: nat, ghost e: Entry, ghost h: nat)
      requires Linked() && View() == c && Contiguous(c)
      requires e !in repr || (0 < p < |spine| && e == spine[p - 1])
      requires p < |spine| && nentry == spine[p] && pentry == LinkAt(p) && h <= p && hint == LinkPast(spine, h)
      modifies this`nodes, this`spine, this`repr, this`hint, repr`next, repr`end, repr`flags
      ensures Linked() && HintOk() && repr == old(repr)
      ensures View() == Joined(c, p)
      ensures e !in repr || c[p - 1].flags != c[p].flags ==> e.end == old(e.end)
    {
      var pentry', nentry';
      ghost var p', pre := 0, spine;
      assert p > 0 ==> Meets(c, p - 1);
      pentry', nentry', p' := JoinBefore(pentry, nentry, p, h);
      JoinPrevContiguous(c, p);
      assert p' + 1 < |spine| ==> Meets(View(), p');
      assert e in repr && c[p - 1].flags != c[p].flags ==> View()[p - 1] == pre[p - 1].Extent();
      JoinAfter(pentry', nentry', p', h);
      SetHint(pentry', p');
    }

    /** amm_modify for a range that has to change: the entry after `front` covers addr, and c is
        the carved map. */
    method Change(pentry: Link, entry: Entry, addr: nat, eaddr: nat, nflags: Flags, ghost front: seq<Entry>,
                  ghost vf: seq<Extent>, ghost rest: seq<Entry>, ghost vr: seq<Extent>, ghost d: nat,
                  ghost b: seq<Extent>, ghost c: seq<Extent>, ghost h: nat) returns (rc: Rc)
      requires Parts(front, vf, rest, vr) && entry == rest[0] && pentry == LinkPast(front, |front|)
      requires h <= |front| && hint == LinkPast(front, h)
      requires vr[0].start <= addr < vr[0].end
      requires d < |vr| && Reaching(Uncut(vr, addr), d, eaddr) && b == Cut(vf, vr, addr)
      requires c == b + ([Extents.Extent(addr, eaddr, nflags)] + Back(Uncut(vr, addr)[d..], eaddr)) && Contiguous(c)
      modifies this`nodes, this`spine, this`repr, this`hint, repr`next, repr`end, repr`flags
      ensures Linked() && HintOk() && (rc.Ok? || rc.Enomem?) && fresh(repr - old(repr))
      ensures rc.Ok? ==> View() == Joined(c, |b|)
      ensures rc.Enomem? ==> View() == vf + vr || Leftover(View(), b, Uncut(vr, addr)[d..], eaddr)
      ensures rc.Ok? && vr[0].flags != nflags && vr[0].start < addr ==> entry.end == addr
      ensures rc.Ok? && vr[0].flags != nflags && vr[0].start == addr && d > 0 ==> entry.end == vr[0].end
      ensures rc.Ok? && vr[0].flags != nflags && vr[0].start == addr && d == 0 ==> entry.end == eaddr
    {
      var nentry, pentry';
      ghost var front', rest';
      rc, nentry, pentry', front', rest' := Carve(pentry, entry, addr, eaddr, nflags, front, vf, rest, vr, d, h);
      if rc.Ok? {
        PartsSeam(front', b, rest', [Extents.Extent(addr, eaddr, nflags)] + Back(Uncut(vr, addr)[d..], eaddr));
        ghost var r := repr;
        JoinAround(pentry', nentry, c, |b|, entry, h);
        assert repr == r;
      }
    }

    lemma PartsOf(k: nat, vf: seq<Extent>, vr: seq<Extent>) returns (front: seq<Entry>, rest: seq<Entry>)
      requires Linked() && k < |spine| && hint == LinkAt(k) && View() == vf + vr && |vf| == k
      ensures Parts(front, vf, rest, vr) && rest[0] == spine[k] && |front| == k && hint == LinkPast(front, k)
    {
      front, rest := spine[..k], spine[k..];
      TakeDrop(spine, k);
      assert k > 0 ==> front[k - 1] == spine[k - 1];
    }

    /** amm_modify once the entry covering addr is found and has to change. */
    method ModifyAt(pentry: Link, entry: Entry, addr: nat, eaddr: nat, nflags: Flags, ghost v: seq<Extent>,
                    ghost k: nat, ghost m: nat)
      returns (rc: Rc)
      requires Valid() && View() == v && k < |spine| && Covers(v[k], addr) && addr <= eaddr <= MAXADDR
      requires IsEndIndex(v, k, m, eaddr) && entry == spine[k] && hint == pentry == LinkAt(k)
      modifies this`nodes, this`spine, this`repr, this`hint, repr`next, repr`end, repr`flags
      ensures fresh(repr - old(repr)) && (rc.Ok? || rc.Enomem?)
      ensures rc.Ok? ==> Valid() && View() == Joined(Carved(v, k, m, addr, eaddr, nflags), NewIndex(v, k, addr))
      ensures rc.Enomem? ==> (Valid() <==> View() == v || eaddr <= v[k].end)
      ensures rc.Enomem? && Valid() ==> SameMeaning(v, View(), MAXADDR)
      ensures rc.Enomem? && Valid() && Solid(v) && addr < eaddr ==> Solid(View())
      ensures rc.Ok? && v[k].flags != nflags && v[k].start < addr ==> entry.end == addr
      ensures rc.Ok? && v[k].flags != nflags && v[k].start == addr && m > k ==> entry.end == v[k].end
      ensures rc.Ok? && v[k].flags != nflags && v[k].start == addr && m == k ==> entry.end == eaddr
    {
      ghost var vf, vr, d, b, c := PlanCarve(v, MAXADDR, k, m, addr, eaddr, nflags);
      ghost var front, rest := PartsOf(k, vf, vr);
      rc := Change(pentry, entry, addr, eaddr, nflags, front, vf, rest, vr, d, b, c, k);
      assert vr[0] == v[k];
      if rc.Enomem? {
        LeftoverOutcome(v, MAXADDR, k, m, addr, eaddr, vf, vr, d, b, View());
      }
    }

    /** amm_modify without an explicit new entry, for a caller that holds on to the entry that
        covers addr. */
    method ModifyHeld(addr: nat, size: nat, nflags: Flags, ghost v: seq<Extent>, ghost held: Entry) returns (rc: Rc)
      requires Valid() && v == View() && addr < MAXADDR && size < WORD && held == spine[IndexOf(v, 0, MAXADDR, addr)]
      modifies this`nodes, this`spine, this`repr, this`hint, repr`next, repr`end, repr`flags
      ensures fresh(repr - old(repr))
      ensures rc.Einval? <==> addr + size >= WORD
      ensures rc.Einval? ==> Valid() && View() == v
      ensures rc.Ok? ==> Valid() && ModifiedTo(v, View(), addr, addr + size, nflags)
      ensures rc.Ok? ==> Becomes(v, View(), addr, addr + size, nflags)
      ensures rc.Enomem? ==> (Valid() <==> View() == v || addr + size <= EndAt(v, addr))
      ensures rc.Enomem? && Valid() ==> SameMeaning(v, View(), MAXADDR)
      ensures rc.Enomem? && Valid() && Solid(v) && size > 0 ==> Solid(View())
      ensures rc.Ok? && FlagsAt(v, addr) != nflags ==> ReadAfter(v, addr, addr + size, held.end)
    {
      var eaddr := Wrap(addr + size);
      if eaddr < addr {
        return Einval;
      }
      var entry;
      ghost var k;
      entry, k := FindAddr(addr);
      if addr >= entry.start && eaddr <= entry.end && nflags == entry.flags {
        ModifiedMeets(v, v, addr, eaddr, nflags);
        return Ok;
      }
      ModifiedIs(v, MAXADDR, addr, eaddr, nflags);
      ghost var m := EndIndex(v, MAXADDR, k, eaddr);
      label Found:
      rc := ModifyAt(hint, entry, addr, eaddr, nflags, v, k, m);
      forall e: Entry | e in repr && e !in old(repr) ensures !old(allocated(e)) {
        assert !old@Found(allocated(e));
      }
      assert m > k <==> v[k].end < eaddr;
      if rc.Ok? {
        ModifiedMeets(v, View(), addr, eaddr, nflags);
      }
    }

    /** amm_modify without an explicit new entry. An empty range at the end of the space fails an
        assertion of amm_find_addr. */
    method Modify(addr: nat, size: nat, nflags: Flags) returns (rc: Rc)
      requires Valid() && addr < WORD && size < WORD && (addr < MAXADDR || size > 0)
      modifies this`nodes, this`spine, this`repr, this`hint, repr`next, repr`end, repr`flags
      ensures fresh(repr - old(repr))
      ensures rc.Einval? <==> addr + size >= WORD
      ensures rc.Einval? ==> Valid() && View() == old(View())
      ensures rc.Ok? ==> Valid() && ModifiedTo(old(View()), View(), addr, addr + size, nflags)
      ensures rc.Ok? ==> Becomes(old(View()), View(), addr, addr + size, nflags)
      ensures rc.Enomem? ==> (Valid() <==> View() == old(View()) || addr + size <= EndAt(old(View()), addr))
      ensures rc.Enomem? && Valid() ==> SameMeaning(old(View()), View(), MAXADDR)
      ensures rc.Enomem? && Valid() && Solid(old(View())) && size > 0 ==> Solid(View())
    {
      if Wrap(addr + size) < addr {
        return Einval;
      }
      ghost var v := View();
      rc := ModifyHeld(addr, size, nflags, v, spine[IndexOf(v, 0, MAXADDR, addr)]);
    }
  }

  /** w is the list that a modify of [addr, eaddr) to f makes of v, entry by entry. */
  ghost predicate Becomes(v: seq<Extent>, w: seq<Extent>, addr: nat, eaddr: nat, f: Flags) {
    && Tiles(v, 0, MAXADDR) && addr < MAXADDR && addr <= eaddr <= MAXADDR
    && w == Modified(v, MAXADDR, addr, eaddr, f)
  }

  /** What a modify of [addr, eaddr) to f makes of v: the range has the flags f, every other
      address keeps its own, and a map without empty or mergeable entries stays one. */
  ghost predicate ModifiedTo(v: seq<Extent>, w: seq<Extent>, addr: nat, eaddr: nat, f: Flags) {
    && Overridden(v, w, MAXADDR, addr, eaddr, f)
    && (addr < eaddr && Solid(v) ==> Solid(w))
    && (addr < eaddr && Minimal(v) ==> Minimal(w))
  }

  lemma ModifiedMeets(v: seq<Extent>, w: seq<Extent>, addr: nat, eaddr: nat, f: Flags)
    requires Tiles(v, 0, MAXADDR) && addr < MAXADDR && addr <= eaddr <= MAXADDR
    requires w == Modified(v, MAXADDR, addr, eaddr, f)
    ensures ModifiedTo(v, w, addr, eaddr, f)
  {
    ModifiedOverrides(v, MAXADDR, addr, eaddr, f);
    if addr < eaddr && Solid(v) { ModifiedSolid(v, MAXADDR, addr, eaddr, f); }
    if addr < eaddr && Minimal(v) { ModifiedMinimal(v, MAXADDR, addr, eaddr, f); }
  }

  /** What reading the end of the entry that covered addr gives after a modify of
      [addr, eaddr) to other flags: the caller may still hold that entry. */
  ghost predicate ReadAfter(v: seq<Extent>, addr: nat, eaddr: nat, end: nat)
    requires Tiles(v, 0, MAXADDR) && addr < MAXADDR
  {
    var e := v[IndexOf(v, 0, MAXADDR, addr)];
    end == if e.start < addr then addr else if e.end < eaddr then e.end else eaddr
  }

  /** Where the entry covering an address ends. */
  ghost function EndAt(v: seq<Extent>, addr: nat): nat
    requires Tiles(v, 0, MAXADDR) && addr < MAXADDR
  {
    v[IndexOf(v, 0, MAXADDR, addr)].end
  }

  /** Entries before the one covering an address end at or below it, later ones start above it. */
  lemma OthersMiss(v: seq<Extent>, k: nat, addr: nat)
    requires Tiles(v, 0, MAXADDR) && k < |v| && Covers(v[k], addr)
    ensures forall i :: 0 <= i < k ==> v[i].start <= addr && v[i].end <= addr
    ensures forall i :: k < i < |v| ==> addr < v[i].start
  {
    forall i | 0 <= i < k ensures v[i].start <= addr && v[i].end <= addr { Ordered(v, 0, MAXADDR, i, k); }
    forall i | k < i < |v| ensures addr < v[i].start { Ordered(v, 0, MAXADDR, k, i); }
  }
}
