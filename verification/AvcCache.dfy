/** The access vector cache object of com/avc.c. */
module AvcCache {
  import opened Common
  import opened AccessVectors
  import opened AvcChains
  import opened AvcReclaim
  import opened AvcProtocol

  datatype Rc = Ok | Again | Panic

  /** Where a node for a new entry came from: the freelist, or place p of slot h. */
  datatype Taken = FromFreelist | FromSlot(h: nat, p: nat)

  /** The length of the freelist after a node is claimed. */
  function Spare(free: nat): nat {
    if free > 0 then free - 1 else 0
  }

  class Avc {
    /** How many nodes were allocated when the cache was created. */
    const nodes: nat
    var slots: seq<seq<Node>>
    /** The length of the freelist. */
    var free: nat
    var lruHint: nat
    var active: nat
    var latestNotif: nat

    ghost predicate Valid()
      reads this
    {
      Placed(slots) && lruHint < SLOTS && active == Total(slots) && active + free == nodes
    }

    constructor (nodes: nat)
      ensures Valid() && this.nodes == free == nodes && slots == seq(SLOTS, i => []) && latestNotif == lruHint == 0
    {
      this.nodes, slots, free, lruHint, active, latestNotif := nodes, seq(SLOTS, i => []), nodes, 0, 0, 0;
      TotalZero(seq(SLOTS, i => []));
    }

    /** avc_reclaim_node. */
    method Reclaim() returns (panic: bool, ghost h: nat, ghost p: nat)
      requires Valid()
      modifies this`slots, this`lruHint
      ensures panic <==> active == 0
      ensures panic ==> slots == old(slots) && lruHint == old(lruHint)
      ensures !panic ==> |slots| == SLOTS && lruHint == h < SLOTS && p < |old(slots)[h]|
      ensures !panic ==> Reclaimed(old(slots), slots, old(lruHint), Turn(old(lruHint), h), p)
      ensures !panic ==> Without(old(slots), slots, h, p) && NextVictim(old(slots), old(lruHint), h, p)
    {
      ghost var k;
      var after, hvalue, pos;
      panic, after, hvalue, pos, k := Choose(slots, lruHint);
      h, p := hvalue, pos;
      if !panic {
        slots := after[hvalue := after[hvalue][..pos] + after[hvalue][pos + 1..]];
        ReclaimedMeans(old(slots), slots, lruHint, k, p);
        VictimIsNext(old(slots), slots, lruHint, k, p);
        lruHint := hvalue;
      }
    }

    /** The first part of avc_claim_node: a node from the freelist or a reclaimed one. */
    method TakeNode() returns (ok: bool, ghost taken: Taken)
      requires Valid()
      modifies this`slots, this`lruHint, this`free, this`active
      ensures Placed(slots) && lruHint < SLOTS
      ensures ok <==> nodes > 0
      ensures ok ==> active == Total(slots) + 1 && active + free == nodes
      ensures ok ==> TookNode(old(slots), slots, old(lruHint), lruHint, taken)
      ensures !ok ==> Valid() && slots == old(slots)
      ensures ok ==> (taken.FromFreelist? <==> old(free) > 0) && free == Spare(old(free))
    {
      taken := FromFreelist;
      if free > 0 {
        free, active := free - 1, active + 1;
        return true, taken;
      }
      var panic;
      ghost var h, p;
      panic, h, p := Reclaim();
      if !panic {
        taken := FromSlot(h, p);
        WithoutMeans(old(slots), slots, h, p);
      }
      ok := !panic;
    }

    /** avc_claim_node for a new entry, and the copy of the entry in avc_insert: the node stands in
        front of its chain, in `mid`, which is the cache without the node that was taken. */
    method Claim(key: Key, entry: Entry) returns (ok: bool, ghost taken: Taken, ghost mid: seq<seq<Node>>)
      requires Valid()
      modifies this`slots, this`lruHint, this`free, this`active
      ensures Valid()
      ensures ok <==> nodes > 0
      ensures !ok ==> slots == old(slots)
      ensures ok ==> (taken.FromFreelist? <==> old(free) > 0) && free == Spare(old(free))
      ensures ok ==> Placed(mid) && TookNode(old(slots), mid, old(lruHint), lruHint, taken)
      ensures ok ==> slots == Pushed(mid, key, entry)
    {
      ok, taken := TakeNode();
      mid := slots;
      if ok {
        var hvalue := Hash(key);
        slots := slots[hvalue := [Node(key, entry, true)] + slots[hvalue]];
        TotalUpdate(mid, hvalue, slots[hvalue]);
        PushedMeans(mid, key, entry);
      }
    }

    /** avc_insert: a decision older than the latest notification is turned away; otherwise the cache
        is as avc_claim_node leaves it. Into a cache without duplicate keys a new key is an insertion
        of the protocol, and nothing is lost while the freelist lasts. */
    method Insert(key: Key, entry: Entry, seqno: nat) returns (rc: Rc, ghost taken: Taken, ghost mid: seq<seq<Node>>)
      requires Valid()
      modifies this`slots, this`lruHint, this`free, this`active
      ensures Valid()
      ensures rc.Again? <==> seqno < latestNotif
      ensures rc.Panic? <==> seqno >= latestNotif && nodes == 0
      ensures !rc.Ok? ==> slots == old(slots)
      ensures rc.Ok? ==> (taken.FromFreelist? <==> old(free) > 0) && free == Spare(old(free))
      ensures rc.Ok? ==> Placed(mid) && TookNode(old(slots), mid, old(lruHint), lruHint, taken)
      ensures rc.Ok? ==> slots == Pushed(mid, key, entry)
      ensures rc.Ok? && Unique(old(slots)) && Look(old(slots), key).None? ==>
        && Unique(slots) && Inserted(CacheOf(old(slots)), CacheOf(slots), key, entry)
        && AfterClaim(old(slots), slots, key, entry, taken)
    {
      taken, mid := FromFreelist, slots;
      if seqno < latestNotif {
        return Again, taken, mid;
      }
      var ok;
      ok, taken, mid := Claim(key, entry);
      if ok {
        rc := Ok;
        if Unique(old(slots)) && Look(old(slots), key).None? { ClaimMeans(old(slots), mid, slots, key, entry, taken); }
      } else {
        rc := Panic;
      }
    }

    /** avc_search_node: the first node of the chain with the key, which it marks. */
    method Search(key: Key) returns (j: nat)
      requires Valid()
      modifies this`slots
      ensures Valid() && Marks(old(slots), slots)
      ensures Look(old(slots), key).None? ==> j == |slots[Hash(key)]| && slots == old(slots)
      ensures Look(old(slots), key).Some? ==> var c := old(slots)[Hash(key)];
        && FirstOf(c, j, key) && Look(old(slots), key).value == c[j].entry
        && slots == old(slots)[Hash(key) := c[j := c[j].(used := true)]]
    {
      var hvalue := Hash(key);
      var chain := slots[hvalue];
      j := FirstWith(chain, key);
      if j < |chain| {
        slots := slots[hvalue := chain[j := chain[j].(used := true)]];
        TotalSame(old(slots), slots);
      }
    }

    /** avc_lookup: an entry whose decided permissions cover what is asked for. */
    method Lookup(key: Key, requested: Vec) returns (r: Option<Entry>)
      requires Valid()
      modifies this`slots
      ensures Valid() && Marks(old(slots), slots) && forall k :: Look(slots, k) == Look(old(slots), k)
      ensures Look(slots, key).Some? && requested <= Look(slots, key).value.decided ==> r == Look(slots, key)
      ensures Look(slots, key).None? || !(requested <= Look(slots, key).value.decided) ==> r.None?
    {
      var j := Search(key);
      MarksLook(old(slots), slots);
      r := None;
      if j < |slots[Hash(key)]| && requested <= slots[Hash(key)][j].entry.decided {
        r := Some(slots[Hash(key)][j].entry);
      }
    }

    /** avc_update_cache, for a change that names both identifiers. */
    method UpdateOne(n: Notification)
      requires Valid() && n.Change? && n.ssid != SID_WILD && n.tsid != SID_WILD
      modifies this`slots
      ensures Valid() && SameKeys(old(slots), slots) && Delivered(CacheOf(old(slots)), CacheOf(slots), n)
      ensures OneUpdated(old(slots), slots, n)
    {
      var key := Key(n.ssid, n.tsid, n.tclass);
      var h := Hash(key);
      var j := Search(key);
      if j < |slots[h]| {
        var node := slots[h][j];
        slots := slots[h := slots[h][j := node.(entry := Update(n.code, node.entry, n.perms))]];
        assert slots[h] == UpdatedAt(old(slots)[h], j, n);
        assert slots == old(slots)[h := UpdatedAt(old(slots)[h], j, n)];
        UpdatedFirst(old(slots), slots, j, n);
      } else {
        NothingToUpdate(slots, n);
      }
    }

    /** avc_update_cache, for a change with a wildcard. */
    method UpdateAll(n: Notification)
      requires Valid() && n.Change? && (n.ssid == SID_WILD || n.tsid == SID_WILD)
      modifies this`slots
      ensures Valid() && SameKeys(old(slots), slots) && WildUpdated(old(slots), slots, n)
      ensures ProperKeys(old(slots)) ==> Delivered(CacheOf(old(slots)), CacheOf(slots), n)
    {
      ghost var o := slots;
      var i := 0;
      while i < SLOTS
        invariant i <= SLOTS && |slots| == SLOTS
        invariant forall h :: 0 <= h < i ==> UpdatedChain(o[h], slots[h], n)
        invariant forall h :: i <= h < SLOTS ==> slots[h] == o[h]
      {
        var chain := UpdateChain(slots[i], n);
        slots := slots[i := chain];
        i := i + 1;
      }
      TotalSame(o, slots);
      ChainsWild(o, slots, n);
      if ProperKeys(o) {
        forall k { UpdatedLooks(o[Hash(k)], slots[Hash(k)], n, k); }
      }
    }

    /** avc_control. The callbacks are not modelled but for the permissions that they retain when a
        revocation is only tried; these are not revoked. */
    method Control(n: Notification, seqno: nat, retained: Vec)
      requires Valid() && n.Change?
      modifies this`slots, this`latestNotif
      ensures Valid() && SameKeys(old(slots), slots)
      ensures ProperKeys(old(slots)) ==> Delivered(CacheOf(old(slots)), CacheOf(slots), Effective(n, retained))
      ensures ProperKeys(old(slots)) ==> Controlled(CacheOf(old(slots)), CacheOf(slots), n, retained)
      ensures n.ssid != SID_WILD && n.tsid != SID_WILD ==> OneUpdated(old(slots), slots, Effective(n, retained))
      ensures n.ssid == SID_WILD || n.tsid == SID_WILD ==> WildUpdated(old(slots), slots, Effective(n, retained))
      ensures latestNotif == if seqno > old(latestNotif) then seqno else old(latestNotif)
    {
      var m := Effective(n, retained);
      if m.ssid == SID_WILD || m.tsid == SID_WILD {
        UpdateAll(m);
      } else {
        UpdateOne(m);
      }
      if ProperKeys(old(slots)) { ControlMeans(CacheOf(old(slots)), CacheOf(slots), n, retained); }
      if seqno > latestNotif {
        latestNotif := seqno;
      }
    }

    /** avc_ss_reset, without callbacks: all nodes go back to the freelist. */
    method Flush(seqno: nat)
      requires Valid()
      modifies this
      ensures Valid() && active == 0 && free == nodes && lruHint == 0
      ensures Delivered(CacheOf(old(slots)), CacheOf(slots), Reset)
      ensures latestNotif == if seqno > old(latestNotif) then seqno else old(latestNotif)
    {
      var i := 0;
      while i < SLOTS
        invariant i <= SLOTS && |slots| == SLOTS && active == Total(slots) && active + free == nodes
        invariant forall h :: 0 <= h < i ==> slots[h] == []
        invariant latestNotif == old(latestNotif)
      {
        ghost var o := slots;
        while slots[i] != []
          invariant |slots| == SLOTS && active == Total(slots) && active + free == nodes
          invariant forall h :: 0 <= h < i ==> slots[h] == []
          invariant latestNotif == old(latestNotif)
          decreases |slots[i]|
        {
          TotalUpdate(slots, i, slots[i][1..]);
          slots := slots[i := slots[i][1..]];
          free, active := free + 1, active - 1;
        }
        i := i + 1;
      }
      lruHint := 0;
      TotalZero(slots);
      if seqno > latestNotif {
        latestNotif := seqno;
      }
    }
  }

  /** j is the first place of the key in a chain. */
  ghost predicate FirstOf(c: seq<Node>, j: nat, key: Key) {
    j < |c| && c[j].key == key && forall i :: 0 <= i < j ==> c[i].key != key
  }

  /** n is o with the first node of the key updated and marked, and nothing else changed. */
  ghost predicate OneUpdated(o: seq<seq<Node>>, n: seq<seq<Node>>, c: Notification)
    requires c.Change?
  {
    var key := Key(c.ssid, c.tsid, c.tclass);
    var h := Hash(key);
    && |o| == |n| == SLOTS
    && (Look(o, key).None? ==> n == o)
    && (Look(o, key).Some? ==> exists j: nat :: FirstOf(o[h], j, key) && n == o[h := UpdatedAt(o[h], j, c)])
  }

  /** A chain with node j updated and marked. */
  function UpdatedAt(c: seq<Node>, j: nat, n: Notification): seq<Node>
    requires j < |c| && n.Change?
  {
    c[j := Node(c[j].key, Update(n.code, c[j].entry, n.perms), true)]
  }

  lemma UpdatedFirst(o: seq<seq<Node>>, n: seq<seq<Node>>, j: nat, c: Notification)
    requires Placed(o) && c.Change? && c.ssid != SID_WILD && c.tsid != SID_WILD
    requires var key := Key(c.ssid, c.tsid, c.tclass);
      FirstOf(o[Hash(key)], j, key) && n == o[Hash(key) := UpdatedAt(o[Hash(key)], j, c)]
    ensures Placed(n) && Total(n) == Total(o) && SameKeys(o, n)
    ensures OneUpdated(o, n, c) && Delivered(CacheOf(o), CacheOf(n), c)
  {
    var key := Key(c.ssid, c.tsid, c.tclass);
    var h := Hash(key);
    TotalSame(o, n);
    forall k ensures Look(n, k) == if k == key then Some(n[h][j].entry) else Look(o, k) {
      if Hash(k) == h { LookReplaced(o[h], n[h], j, k); }
    }
    LookAtFirst(o[h], j, key);
    forall k ensures Covers(c, k) <==> k == key {
    }
    assert CacheOf(n)(key) == Look(n, key) && CacheOf(o)(key) == Look(o, key);
  }

  lemma NothingToUpdate(o: seq<seq<Node>>, c: Notification)
    requires |o| == SLOTS && c.Change? && c.ssid != SID_WILD && c.tsid != SID_WILD
    requires Look(o, Key(c.ssid, c.tsid, c.tclass)).None?
    ensures SameKeys(o, o) && OneUpdated(o, o, c) && Delivered(CacheOf(o), CacheOf(o), c)
  {
    forall k ensures Covers(c, k) <==> k == Key(c.ssid, c.tsid, c.tclass) {
    }
  }

  lemma {:induction false} LookAtFirst(c: seq<Node>, j: nat, key: Key)
    requires FirstOf(c, j, key)
    ensures LookIn(c, key) == Some(c[j].entry)
  {
    if j > 0 {
      assert c[0].key != key;
      LookAtFirst(c[1..], j - 1, key);
    }
  }

  /** The change that is made to the cache. */
  function Effective(n: Notification, retained: Vec): Notification
    requires n.Change?
  {
    if n.code.TryRevoke? then n.(perms := n.perms - retained) else n
  }

  /** What avc_control does to the cache: a tried revocation takes away what is not retained, and touches
      nothing else; any other change is made whole, whatever is retained. Keys that the change does not
      speak of stay. */
  ghost predicate Controlled(c: Cache, c': Cache, n: Notification, retained: Vec)
    requires n.Change?
  {
    forall k ::
      && (c(k).None? ==> c'(k).None?)
      && (c(k).Some? && !Covers(n, k) ==> c'(k) == c(k))
      && (c(k).Some? && Covers(n, k) && n.code.TryRevoke? ==>
            c'(k) == Some(c(k).value.(allowed := c(k).value.allowed - (n.perms - retained))))
      && (c(k).Some? && Covers(n, k) && !n.code.TryRevoke? ==>
            c'(k).Some? && forall w :: Get(c'(k).value, w) == Apply(n, k, w, Get(c(k).value, w)))
  }

  lemma ControlMeans(c: Cache, c': Cache, n: Notification, retained: Vec)
    requires n.Change? && Delivered(c, c', Effective(n, retained))
    ensures Controlled(c, c', n, retained)
  {
    var m := Effective(n, retained);
    forall k | c(k).Some? && Covers(n, k) ensures c'(k) == Some(Update(m.code, c(k).value, m.perms)) {
      assert Covers(m, k);
    }
    forall k, w | c(k).Some? && Covers(n, k) && !n.code.TryRevoke?
      ensures Get(Update(n.code, c(k).value, n.perms), w) == Apply(n, k, w, Get(c(k).value, w))
    {
      UpdateApplies(n, k, c(k).value, w);
    }
  }

  /** The cached keys name no wildcard. */
  ghost predicate ProperKeys(slots: seq<seq<Node>>)
    requires |slots| == SLOTS
  {
    forall k :: Look(slots, k).Some? ==> Proper(k)
  }

  /** The same keys in the same places. */
  ghost predicate SameKeys(o: seq<seq<Node>>, n: seq<seq<Node>>) {
    && |o| == |n| == SLOTS
    && forall i :: 0 <= i < SLOTS ==> |n[i]| == |o[i]| && forall j :: 0 <= j < |o[i]| ==> n[i][j].key == o[i][j].key
  }

  lemma SameKeysUnique(o: seq<seq<Node>>, n: seq<seq<Node>>)
    requires SameKeys(o, n) && Unique(o)
    ensures Unique(n)
  {
    forall i | 0 <= i < SLOTS ensures NoTwins(n[i]) { assert NoTwins(o[i]); }
  }

  /** AVC_SIDCMP. */
  predicate SidCmp(x: bv32, y: bv32) {
    x == y || x == SID_WILD || y == SID_WILD
  }

  predicate Matches(n: Notification, k: Key)
    requires n.Change?
  {
    SidCmp(n.ssid, k.ssid) && SidCmp(n.tsid, k.tsid) && n.tclass == k.tclass
  }

  function UpdatedNode(n: Notification, x: Node): Node
    requires n.Change?
  {
    if Matches(n, x.key) then x.(entry := Update(n.code, x.entry, n.perms)) else x
  }

  ghost predicate UpdatedChain(c: seq<Node>, d: seq<Node>, n: Notification)
    requires n.Change?
  {
    |d| == |c| && forall j :: 0 <= j < |c| ==> d[j] == UpdatedNode(n, c[j])
  }

  /** A change and a key speak of the same identifier, or one of them of any. */
  predicate Agree(x: bv32, y: bv32) {
    SID_WILD in {x, y} || {x} == {y}
  }

  /** Every node that the change speaks of is updated, and no other, wherever wildcards stand. */
  ghost predicate WildUpdated(o: seq<seq<Node>>, n: seq<seq<Node>>, c: Notification)
    requires c.Change?
  {
    && |o| == |n| == SLOTS
    && forall h, j :: 0 <= h < SLOTS && 0 <= j < |o[h]| ==> |n[h]| == |o[h]| && NodeUpdated(o[h][j], n[h][j], c)
  }

  ghost predicate NodeUpdated(x: Node, y: Node, c: Notification)
    requires c.Change?
  {
    var spoken := Agree(c.ssid, x.key.ssid) && Agree(c.tsid, x.key.tsid) && c.tclass == x.key.tclass;
    && y.key == x.key && y.used == x.used
    && (spoken ==> y.entry == Update(c.code, x.entry, c.perms))
    && (!spoken ==> y.entry == x.entry)
  }

  lemma AgreeIs(x: bv32, y: bv32)
    ensures SidCmp(x, y) <==> Agree(x, y)
  {
    if {x} == {y} { assert x in {y}; }
  }

  lemma ChainsWild(o: seq<seq<Node>>, n: seq<seq<Node>>, c: Notification)
    requires c.Change? && |o| == |n| == SLOTS && forall h :: 0 <= h < SLOTS ==> UpdatedChain(o[h], n[h], c)
    ensures WildUpdated(o, n, c)
  {
    forall h, j | 0 <= h < SLOTS && 0 <= j < |o[h]| ensures |n[h]| == |o[h]| && NodeUpdated(o[h][j], n[h][j], c) {
      AgreeIs(c.ssid, o[h][j].key.ssid);
      AgreeIs(c.tsid, o[h][j].key.tsid);
    }
  }

  /** The inner loop of avc_update_cache. */
  method UpdateChain(c: seq<Node>, n: Notification) returns (d: seq<Node>)
    requires n.Change?
    ensures UpdatedChain(c, d, n)
  {
    d := c;
    var j := 0;
    while j < |c|
      invariant j <= |c| == |d|
      invariant forall i :: 0 <= i < j ==> d[i] == UpdatedNode(n, c[i])
      invariant forall i :: j <= i < |c| ==> d[i] == c[i]
    {
      if SidCmp(n.ssid, d[j].key.ssid) && SidCmp(n.tsid, d[j].key.tsid) && n.tclass == d[j].key.tclass {
        d := d[j := d[j].(entry := Update(n.code, d[j].entry, n.perms))];
      }
      j := j + 1;
    }
  }

  lemma {:induction false} UpdatedLooks(c: seq<Node>, d: seq<Node>, n: Notification, k: Key)
    requires n.Change? && UpdatedChain(c, d, n) && (LookIn(c, k).Some? ==> Proper(k))
    ensures LookIn(c, k).None? ==> LookIn(d, k).None?
    ensures LookIn(c, k).Some? && Covers(n, k) ==> LookIn(d, k) == Some(Update(n.code, LookIn(c, k).value, n.perms))
    ensures LookIn(c, k).Some? && !Covers(n, k) ==> LookIn(d, k) == LookIn(c, k)
  {
    if c != [] && c[0].key != k { UpdatedLooks(c[1..], d[1..], n, k); }
  }

  lemma {:induction false} LookReplaced(c: seq<Node>, d: seq<Node>, j: nat, k: Key)
    requires j < |c| == |d| && d == c[j := d[j]] && d[j].key == c[j].key
    requires forall i :: 0 <= i < j ==> c[i].key != c[j].key
    ensures LookIn(d, k) == if k == c[j].key then Some(d[j].entry) else LookIn(c, k)
  {
    if j > 0 {
      assert d[1..] == c[1..][j - 1 := d[j]];
      LookReplaced(c[1..], d[1..], j - 1, k);
    } else {
      assert d[1..] == c[1..];
    }
  }

  /** A cache that holds one chain, that of the key. */
  ghost function OneChain(k: Key, c: seq<Node>): (o: seq<seq<Node>>)
    ensures |o| == SLOTS
  {
    seq(SLOTS, i => if i == Hash(k) then c else [])
  }

  lemma TwoTwins(k: Key, e: Entry)
    ensures seq(SLOTS, i => []) == OneChain(k, [])
    ensures Pushed(OneChain(k, []), k, e) == OneChain(k, [Node(k, e, true)])
    ensures Pushed(OneChain(k, [Node(k, e, true)]), k, e) == OneChain(k, [Node(k, e, true), Node(k, e, true)])
  {
    assert [Node(k, e, true)] + [] == [Node(k, e, true)];
    assert [Node(k, e, true)] + [Node(k, e, true)] == [Node(k, e, true), Node(k, e, true)];
  }

  lemma FirstTwinUpdated(k: Key, e: Entry, n: seq<seq<Node>>, c: Notification)
    requires c.Change? && k == Key(c.ssid, c.tsid, c.tclass)
    requires OneUpdated(OneChain(k, [Node(k, e, true), Node(k, e, true)]), n, c)
    ensures n == OneChain(k, [Node(k, Update(c.code, e, c.perms), true), Node(k, e, true)])
  {
    var o, h := OneChain(k, [Node(k, e, true), Node(k, e, true)]), Hash(k);
    assert Look(o, k) == Some(e);
    var j: nat :| FirstOf(o[h], j, k) && n == o[h := UpdatedAt(o[h], j, c)];
    assert o[h][0].key == k;
    assert UpdatedAt(o[h], 0, c) == [Node(k, Update(c.code, e, c.perms), true), Node(k, e, true)];
  }

  /** When both nodes of a key are marked and nothing else is cached, the first is reclaimed. */
  lemma FirstTwinGoes(k: Key, a: Entry, b: Entry, n: seq<seq<Node>>, h: nat, p: nat)
    requires h < SLOTS && |n| == SLOTS && p < |OneChain(k, [Node(k, a, true), Node(k, b, true)])[h]|
    requires Reclaimed(OneChain(k, [Node(k, a, true), Node(k, b, true)]), n, 0, Turn(0, h), p)
    ensures Look(n, k) == Some(b)
  {
    var u := OneChain(k, [Node(k, a, true), Node(k, b, true)]);
    assert AllMarked(u) && h == Hash(k) && p == 0;
    assert Unmark(u[h], 2)[1..] == [Node(k, b, false)];
  }

  /** The same key inserted twice into a cache of two nodes. */
  method InsertTwins(k: Key, e: Entry) returns (avc: Avc)
    ensures fresh(avc) && avc.Valid() && avc.free == avc.lruHint == avc.latestNotif == 0 && avc.nodes == 2
    ensures avc.slots == OneChain(k, [Node(k, e, true), Node(k, e, true)])
  {
    avc := new Avc(2);
    TwoTwins(k, e);
    var rc, taken, mid := avc.Insert(k, e, 0);
    rc, taken, mid := avc.Insert(k, e, 0);
  }

  /** A permission is revoked while its key is cached twice. */
  method RevokeTwins(k: Key, e: Entry) returns (avc: Avc)
    requires Proper(k)
    ensures fresh(avc) && avc.Valid() && avc.free == avc.lruHint == 0 && avc.latestNotif == 1 && avc.nodes == 2
    ensures avc.slots == OneChain(k, [Node(k, Update(Revoke, e, {0}), true), Node(k, e, true)])
  {
    avc := InsertTwins(k, e);
    var n := Change(Revoke, k.ssid, k.tsid, k.tclass, {0});
    avc.Control(n, 1, {});
    FirstTwinUpdated(k, e, avc.slots, n);
  }

  lemma FirstTwinFound(k: Key, a: Entry, b: Entry)
    ensures Look(OneChain(k, [Node(k, a, true), Node(k, b, true)]), k) == Some(a)
  {
  }

  /** Another key is inserted, and the first node of the twins is reclaimed for it. */
  method SecondTwinBack(avc: Avc, k: Key, other: Key, e: Entry)
    requires avc.Valid() && avc.free == avc.lruHint == 0 && avc.latestNotif == 1 && avc.nodes == 2 && other != k
    requires avc.slots == OneChain(k, [Node(k, Update(Revoke, e, {0}), true), Node(k, e, true)])
    modifies avc
    ensures avc.Valid() && Look(avc.slots, k) == Some(e)
  {
    var rc, taken, mid := avc.Insert(other, e, 1);
    FirstTwinGoes(k, Update(Revoke, e, {0}), e, mid, taken.h, taken.p);
    PushedMeans(mid, other, e);
    assert Look(mid, k) == Some(e);
  }

  /** Why a key must not be inserted twice: a revocation reaches the first of two nodes only, and the
      other is back once the first is reclaimed for some other key. */
  method TwinReappears(k: Key, other: Key) returns (revoked: Option<Entry>, later: Option<Entry>)
    requires other != k && Proper(k)
    ensures revoked.Some? && 0 !in revoked.value.allowed
    ensures later.Some? && 0 in later.value.allowed
  {
    var e := Entry({0}, {0}, {}, {}, {});
    var avc := RevokeTwins(k, e);
    FirstTwinFound(k, Update(Revoke, e, {0}), e);
    revoked := Look(avc.slots, k);
    SecondTwinBack(avc, k, other, e);
    later := avc.Lookup(k, {0});
  }

  /** The same nodes everywhere, marks aside. */
  ghost predicate Marks(o: seq<seq<Node>>, n: seq<seq<Node>>) {
    |o| == |n| == SLOTS && forall i :: 0 <= i < SLOTS ==> Alike(o[i], n[i])
  }

  lemma MarksLook(o: seq<seq<Node>>, n: seq<seq<Node>>)
    requires Marks(o, n)
    ensures forall k :: Look(n, k) == Look(o, k)
    ensures Unique(o) ==> Unique(n)
  {
    forall k ensures Look(n, k) == Look(o, k) { AlikeLooks(o[Hash(k)], n[Hash(k)], k); }
    if Unique(o) {
      forall i | 0 <= i < SLOTS ensures NoTwins(n[i]) { AlikeNoTwins(o[i], n[i]); }
    }
  }

  /** n is o without the node that was taken, and the hint is where the scan for it stopped. */
  ghost predicate TookNode(o: seq<seq<Node>>, n: seq<seq<Node>>, hint: nat, hint': nat, taken: Taken) {
    && |o| == |n| == SLOTS && hint < SLOTS
    && (taken.FromFreelist? ==> n == o && hint' == hint)
    && (taken.FromSlot? ==>
          && taken.h < SLOTS && taken.p < |o[taken.h]| && hint' == taken.h
          && Reclaimed(o, n, hint, Turn(hint, taken.h), taken.p) && Without(o, n, taken.h, taken.p))
  }

  /** A new node in front of its chain. */
  function Pushed(o: seq<seq<Node>>, key: Key, entry: Entry): (n: seq<seq<Node>>)
    requires |o| == SLOTS
    ensures |n| == SLOTS
  {
    o[Hash(key) := [Node(key, entry, true)] + o[Hash(key)]]
  }

  /** n is o with the new entry, and without the one whose node was taken. */
  ghost predicate AfterClaim(o: seq<seq<Node>>, n: seq<seq<Node>>, key: Key, entry: Entry, taken: Taken) {
    && |o| == |n| == SLOTS && Look(n, key) == Some(entry)
    && (taken.FromFreelist? ==> forall k :: k != key ==> Look(n, k) == Look(o, k))
    && (taken.FromSlot? ==>
          && taken.h < SLOTS && taken.p < |o[taken.h]|
          && var lost := o[taken.h][taken.p].key;
             lost != key && Look(n, lost).None? && forall k :: k != key && k != lost ==> Look(n, k) == Look(o, k))
  }

  lemma PushedMeans(o: seq<seq<Node>>, key: Key, entry: Entry)
    requires Placed(o)
    ensures var n := Pushed(o, key, entry);
      && Placed(n) && Look(n, key) == Some(entry)
      && forall k :: k != key ==> Look(n, k) == Look(o, k)
  {
    var n, h := Pushed(o, key, entry), Hash(key);
    assert n[h][1..] == o[h];
    forall i, j | 0 <= i < SLOTS && 0 <= j < |n[i]| ensures Hash(n[i][j].key) == i {
      if i == h && j > 0 { assert n[h][j] == o[h][j - 1]; }
    }
  }

  /** A new node keeps the keys distinct exactly when its key was not cached. */
  lemma PushedUniqueIff(o: seq<seq<Node>>, key: Key, entry: Entry)
    requires Placed(o) && Unique(o)
    ensures Unique(Pushed(o, key, entry)) <==> Look(o, key).None?
  {
    var n, h := Pushed(o, key, entry), Hash(key);
    assert n[h][1..] == o[h];
    if Look(o, key).None? {
      forall j | 0 <= j < |o[h]| ensures o[h][j].key != key { LookInFinds(o[h], j); }
    } else {
      var j := LookInPlace(o[h], key);
      assert n[h][0].key == n[h][j + 1].key;
    }
  }

  lemma ClaimMeans(o: seq<seq<Node>>, mid: seq<seq<Node>>, n: seq<seq<Node>>, key: Key, entry: Entry, taken: Taken)
    requires Placed(o) && Unique(o) && Look(o, key).None? && (taken.FromFreelist? ==> mid == o)
    requires taken.FromSlot? ==> taken.h < SLOTS && taken.p < |o[taken.h]| && Without(o, mid, taken.h, taken.p)
    requires Placed(mid) && n == Pushed(mid, key, entry)
    ensures Unique(n) && AfterClaim(o, n, key, entry, taken) && Inserted(CacheOf(o), CacheOf(n), key, entry)
  {
    if taken.FromSlot? {
      WithoutMeans(o, mid, taken.h, taken.p);
      LookInFinds(o[taken.h], taken.p);
    }
    PushedMeans(mid, key, entry);
    PushedUniqueIff(mid, key, entry);
  }

  /** A reclaimed node is an eviction exactly when it was not what a search finds, or the search then
      finds nothing or the same entry. */
  lemma ReclaimEvictsIff(o: seq<seq<Node>>, n: seq<seq<Node>>, h: nat, p: nat)
    requires Placed(o) && Without(o, n, h, p)
    ensures |n| == SLOTS
    ensures Evicted(CacheOf(o), CacheOf(n)) <==>
      Shadowed(o[h], p) || LookIn(o[h][p + 1..], o[h][p].key) in [None, Some(o[h][p].entry)]
  {
    var key := o[h][p].key;
    forall k ensures k != key ==> Look(n, k) == Look(o, k) { WithoutLooks(o, n, h, p, k); }
    WithoutLooks(o, n, h, p, key);
    assert CacheOf(n)(key) == Look(n, key) && CacheOf(o)(key) == Look(o, key);
  }

  /** The loop of avc_search_node. */
  method FirstWith(c: seq<Node>, key: Key) returns (j: nat)
    ensures j <= |c| && (forall i :: 0 <= i < j ==> c[i].key != key)
    ensures LookIn(c, key).None? ==> j == |c|
    ensures LookIn(c, key).Some? ==> j < |c| && c[j].key == key && c[j].entry == LookIn(c, key).value
  {
    j := 0;
    while j < |c| && c[j].key != key
      invariant j <= |c| && forall i :: 0 <= i < j ==> c[i].key != key
      invariant LookIn(c[j..], key) == LookIn(c, key)
    {
      assert c[j..][1..] == c[j + 1..];
      j := j + 1;
    }
  }
}
