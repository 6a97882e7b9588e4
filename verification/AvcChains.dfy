/** The hash chains of the access vector cache as values. */
module AvcChains {
  import opened Common
  import opened AccessVectors

  const SLOTS: nat := 128

  datatype Node = Node(key: Key, entry: Entry, used: bool)

  /** The bits that AVC_HASH mixes. */
  function Mixed(ssid: bv32, tsid: bv32, tclass: bv16): bv32 {
    (ssid ^ (tsid << 2) ^ ((tclass as bv32) << 4)) & 0x7F
  }

  /** Each part of a key alone: the bits of it that reach the slot number, and where. */
  lemma MixedAlone(x: bv32, y: bv32, z: bv16)
    ensures Mixed(x, 0, 0) == x & 0x7F
    ensures Mixed(0, y, 0) == (y & 0x1F) << 2
    ensures Mixed(0, 0, z) == ((z & 0x7) as bv32) << 4
  {
  }

  /** The parts of a key are mixed bit by bit. */
  lemma MixedTogether(x: bv32, y: bv32, z: bv16)
    ensures Mixed(x, y, z) == Mixed(x, 0, 0) ^ Mixed(0, y, 0) ^ Mixed(0, 0, z)
  {
  }

  /** AVC_HASH. */
  function Hash(k: Key): (h: nat)
    ensures h < SLOTS
  {
    Mixed(k.ssid, k.tsid, k.tclass) as bv7 as nat
  }

  lemma HashIs(k: Key)
    ensures Hash(k) == Mixed(k.ssid, k.tsid, k.tclass) as nat
  {
  }

  /** Every node is in the slot of its hash. */
  ghost predicate Placed(slots: seq<seq<Node>>) {
    && |slots| == SLOTS
    && forall i, j :: 0 <= i < SLOTS && 0 <= j < |slots[i]| ==> Hash(slots[i][j].key) == i
  }

  ghost predicate NoTwins(c: seq<Node>) {
    forall i, j :: 0 <= i < j < |c| ==> c[i].key != c[j].key
  }

  ghost predicate Unique(slots: seq<seq<Node>>) {
    forall i :: 0 <= i < |slots| ==> NoTwins(slots[i])
  }

  /** What a search of a chain finds. */
  function LookIn(c: seq<Node>, k: Key): Option<Entry> {
    if c == [] then None else if c[0].key == k then Some(c[0].entry) else LookIn(c[1..], k)
  }

  function Look(slots: seq<seq<Node>>, k: Key): Option<Entry>
    requires |slots| == SLOTS
  {
    LookIn(slots[Hash(k)], k)
  }

  /** The cache as the function that a search computes. */
  function CacheOf(slots: seq<seq<Node>>): Key -> Option<Entry>
    requires |slots| == SLOTS
  {
    k => Look(slots, k)
  }

  lemma {:induction false} LookInFinds(c: seq<Node>, j: nat)
    requires j < |c| && NoTwins(c)
    ensures LookIn(c, c[j].key) == Some(c[j].entry)
  {
    if j > 0 {
      assert c[0].key != c[j].key;
      LookInFinds(c[1..], j - 1);
    }
  }

  lemma {:induction false} LookInPlace(c: seq<Node>, k: Key) returns (j: nat)
    requires LookIn(c, k).Some?
    ensures j < |c| && c[j].key == k
  {
    j := 0;
    if c[0].key != k {
      j := LookInPlace(c[1..], k);
      j := j + 1;
    }
  }

  lemma {:induction false} LookInMisses(c: seq<Node>, k: Key)
    requires forall j :: 0 <= j < |c| ==> c[j].key != k
    ensures LookIn(c, k).None?
  {
    if c != [] { LookInMisses(c[1..], k); }
  }

  function Total(slots: seq<seq<Node>>): nat {
    if slots == [] then 0 else |slots[0]| + Total(slots[1..])
  }

  lemma {:induction false} TotalUpdate(slots: seq<seq<Node>>, i: nat, c: seq<Node>)
    requires i < |slots|
    ensures Total(slots[i := c]) + |slots[i]| == Total(slots) + |c|
  {
    if i == 0 {
      assert slots[0 := c][1..] == slots[1..];
    } else {
      TotalUpdate(slots[1..], i - 1, c);
      assert slots[i := c][1..] == slots[1..][i - 1 := c];
    }
  }

  lemma {:induction false} TotalSame(s: seq<seq<Node>>, t: seq<seq<Node>>)
    requires |s| == |t| && forall i :: 0 <= i < |s| ==> |s[i]| == |t[i]|
    ensures Total(s) == Total(t)
  {
    if s != [] { TotalSame(s[1..], t[1..]); }
  }

  lemma {:induction false} TotalZero(s: seq<seq<Node>>)
    ensures Total(s) == 0 <==> forall i :: 0 <= i < |s| ==> s[i] == []
  {
    if s != [] {
      TotalZero(s[1..]);
      if Total(s) == 0 {
        forall i | 0 <= i < |s| ensures s[i] == [] { if i > 0 { assert s[i] == s[1..][i - 1]; } }
      }
    }
  }

  function Unmarked(n: Node): Node {
    n.(used := false)
  }

  /** A chain whose first p nodes have lost their mark. */
  function Unmark(c: seq<Node>, p: nat): (r: seq<Node>)
    requires p <= |c|
    ensures |r| == |c|
  {
    seq(|c|, j requires 0 <= j < |c| => if j < p then Unmarked(c[j]) else c[j])
  }

  /** The same nodes in the same order, marks aside. */
  ghost predicate Alike(c: seq<Node>, d: seq<Node>) {
    |c| == |d| && forall j :: 0 <= j < |c| ==> c[j].key == d[j].key && c[j].entry == d[j].entry
  }

  lemma {:induction false} AlikeLooks(c: seq<Node>, d: seq<Node>, k: Key)
    requires Alike(c, d)
    ensures LookIn(c, k) == LookIn(d, k)
  {
    if c != [] { AlikeLooks(c[1..], d[1..], k); }
  }

  lemma AlikeNoTwins(c: seq<Node>, d: seq<Node>)
    requires Alike(c, d) && NoTwins(c)
    ensures NoTwins(d)
  {
  }

  /** n is o without node p of slot h, marks aside. */
  ghost predicate Without(o: seq<seq<Node>>, n: seq<seq<Node>>, h: nat, p: nat) {
    && |o| == |n| && h < |o| && p < |o[h]|
    && (forall i :: 0 <= i < |o| && i != h ==> Alike(o[i], n[i]))
    && Alike(o[h][..p] + o[h][p + 1..], n[h])
  }

  lemma WithoutMeans(o: seq<seq<Node>>, n: seq<seq<Node>>, h: nat, p: nat)
    requires Placed(o) && Without(o, n, h, p)
    ensures Placed(n) && Total(n) == Total(o) - 1
    ensures Unique(o) ==> Unique(n) && Look(n, o[h][p].key).None?
    ensures Unique(o) ==> forall k :: k != o[h][p].key ==> Look(n, k) == Look(o, k)
  {
    WithoutPlaced(o, n, h, p);
    WithoutTotal(o, n, h, p);
    if Unique(o) {
      WithoutUnique(o, n, h, p);
      forall k ensures k != o[h][p].key ==> Look(n, k) == Look(o, k) { WithoutLooks(o, n, h, p, k); }
      WithoutLooks(o, n, h, p, o[h][p].key);
      LookInMisses(o[h][p + 1..], o[h][p].key);
    }
  }

  lemma WithoutPlaced(o: seq<seq<Node>>, n: seq<seq<Node>>, h: nat, p: nat)
    requires Placed(o) && Without(o, n, h, p)
    ensures Placed(n)
  {
    forall i, j | 0 <= i < SLOTS && 0 <= j < |n[i]| ensures Hash(n[i][j].key) == i {
      if i != h { assert n[i][j].key == o[i][j].key; }
      else { assert n[h][j].key == o[h][if j < p then j else j + 1].key; }
    }
  }

  lemma WithoutTotal(o: seq<seq<Node>>, n: seq<seq<Node>>, h: nat, p: nat)
    requires Without(o, n, h, p)
    ensures Total(n) == Total(o) - 1
  {
    TotalUpdate(o, h, n[h]);
    TotalSame(o[h := n[h]], n);
  }

  lemma WithoutUnique(o: seq<seq<Node>>, n: seq<seq<Node>>, h: nat, p: nat)
    requires Without(o, n, h, p) && Unique(o)
    ensures Unique(n)
  {
    var c := o[h][..p] + o[h][p + 1..];
    assert NoTwins(c);
    forall i | 0 <= i < |n| ensures NoTwins(n[i]) {
      if i != h { AlikeNoTwins(o[i], n[i]); } else { AlikeNoTwins(c, n[i]); }
    }
  }

  /** A node with the same key stands before node p. */
  ghost predicate Shadowed(c: seq<Node>, p: nat)
    requires p < |c|
  {
    exists j :: 0 <= j < p && c[j].key == c[p].key
  }

  /** Without node p a search finds what it found before, unless node p is what it found: then it
      finds the next node with the key. */
  lemma WithoutLooks(o: seq<seq<Node>>, n: seq<seq<Node>>, h: nat, p: nat, k: Key)
    requires Placed(o) && Without(o, n, h, p)
    ensures k != o[h][p].key || Shadowed(o[h], p) ==> Look(n, k) == Look(o, k)
    ensures k == o[h][p].key && !Shadowed(o[h], p) ==> Look(n, k) == LookIn(o[h][p + 1..], k)
    ensures k == o[h][p].key && !Shadowed(o[h], p) ==> Look(o, k) == Some(o[h][p].entry)
  {
    var c := o[h][..p] + o[h][p + 1..];
    assert Hash(o[h][p].key) == h;
    if Hash(k) != h {
      AlikeLooks(o[Hash(k)], n[Hash(k)], k);
    } else {
      AlikeLooks(c, n[h], k);
      LookDropped(o[h], p, k);
    }
  }

  lemma {:induction false} LookDropped(c: seq<Node>, p: nat, k: Key)
    requires p < |c|
    ensures k != c[p].key || Shadowed(c, p) ==> LookIn(c[..p] + c[p + 1..], k) == LookIn(c, k)
    ensures k == c[p].key && !Shadowed(c, p) ==>
      LookIn(c[..p] + c[p + 1..], k) == LookIn(c[p + 1..], k) && LookIn(c, k) == Some(c[p].entry)
  {
    var d := c[..p] + c[p + 1..];
    if p == 0 {
      assert d == c[1..];
    } else {
      var t := c[1..];
      assert d[1..] == t[..p - 1] + t[p..] && t[p..] == c[p + 1..] && t[p - 1] == c[p];
      LookDropped(t, p - 1, k);
      if c[0].key != c[p].key { ShadowedTail(c, p); }
    }
  }

  lemma ShadowedTail(c: seq<Node>, p: nat)
    requires 0 < p < |c| && c[0].key != c[p].key
    ensures Shadowed(c[1..], p - 1) <==> Shadowed(c, p)
  {
    var t := c[1..];
    if Shadowed(c, p) {
      var j :| 0 <= j < p && c[j].key == c[p].key;
      assert t[j - 1].key == t[p - 1].key;
    }
    if Shadowed(t, p - 1) {
      var j :| 0 <= j < p - 1 && t[j].key == t[p - 1].key;
      assert c[j + 1].key == c[p].key;
    }
  }
}
