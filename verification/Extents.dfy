/** Address tilings: the value an address map stands for.
    An address map is a list of [start, end) entries with a flags word, covering the whole
    address space. Everything here is about that list as a value; the linked list that holds
    it is in AddressMap. */
module Extents {

  type Flags = bv32

  datatype Extent = Extent(start: nat, end: nat, flags: Flags)

  /** Entry i + 1 starts where entry i ends. Stated as a predicate so that a proof looks only at
      the seams it names. */
  ghost predicate Meets(v: seq<Extent>, i: nat)
    requires i + 1 < |v|
  {
    v[i].end == v[i + 1].start
  }

  ghost predicate Contiguous(v: seq<Extent>) {
    forall i: nat {:trigger Meets(v, i)} :: i + 1 < |v| ==> Meets(v, i)
  }

  /** The entries follow one another from `lo` to `hi` with no gap and no overlap.
      Empty entries are tolerated: a modify of size zero creates one. */
  ghost predicate Tiles(v: seq<Extent>, lo: nat, hi: nat) {
    && (|v| == 0 ==> lo == hi)
    && (|v| > 0 ==> v[0].start == lo && v[|v| - 1].end == hi)
    && (forall i :: 0 <= i < |v| ==> v[i].start <= v[i].end)
    && Contiguous(v)
  }

  ghost predicate Differ(v: seq<Extent>, i: nat)
    requires i + 1 < |v|
  {
    v[i].flags != v[i + 1].flags
  }

  /** No entry is empty. */
  ghost predicate Solid(v: seq<Extent>) {
    forall i :: 0 <= i < |v| ==> v[i].start < v[i].end
  }

  /** No entry is empty and no two neighbours carry the same flags. */
  ghost predicate Minimal(v: seq<Extent>) {
    && Solid(v)
    && (forall i: nat {:trigger Differ(v, i)} :: i + 1 < |v| ==> Differ(v, i))
  }

  /** The meaning of a tiling: the flags of every address. */
  ghost function FlagsAt(v: seq<Extent>, a: nat): Flags {
    if |v| == 0 then 0
    else if a < v[0].end then v[0].flags
    else FlagsAt(v[1..], a)
  }

  ghost predicate Covers(e: Extent, a: nat) {
    e.start <= a < e.end
  }

  lemma {:induction false} Ordered(v: seq<Extent>, lo: nat, hi: nat, i: nat, j: nat)
    requires Tiles(v, lo, hi) && i <= j < |v|
    ensures lo <= v[i].start <= v[j].start <= v[j].end <= hi
    ensures i < j ==> v[i].end <= v[j].start
    decreases j - i + i, |v| - j
  {
    if i < j {
      Ordered(v, lo, hi, i, j - 1);
      assert Meets(v, j - 1);
    } else if i > 0 {
      Ordered(v, lo, hi, i - 1, i - 1);
      assert Meets(v, i - 1);
    }
    EndsBelow(v, lo, hi, j);
  }

  lemma {:induction false} EndsBelow(v: seq<Extent>, lo: nat, hi: nat, j: nat)
    requires Tiles(v, lo, hi) && j < |v|
    ensures v[j].end <= hi
    decreases |v| - j
  {
    if j + 1 < |v| {
      EndsBelow(v, lo, hi, j + 1);
      assert Meets(v, j);
    }
  }

  lemma TailTiles(v: seq<Extent>, lo: nat, hi: nat)
    requires Tiles(v, lo, hi) && |v| > 0
    ensures Tiles(v[1..], v[0].end, hi)
    ensures Minimal(v) ==> Minimal(v[1..])
  {
    var w := v[1..];
    assert |v| > 1 ==> Meets(v, 0);
    forall i: nat | i + 1 < |w| ensures Meets(w, i) { assert Meets(v, i + 1); }
    if Minimal(v) {
      forall i: nat | i + 1 < |w| ensures Differ(w, i) { assert Differ(v, i + 1); }
    }
  }

  /** The entry that covers an address decides its flags, and it is the only one that does. */
  lemma {:induction false} FlagsAtEntry(v: seq<Extent>, lo: nat, hi: nat, i: nat, a: nat)
    requires Tiles(v, lo, hi) && i < |v| && Covers(v[i], a)
    ensures FlagsAt(v, a) == v[i].flags
    ensures forall j :: 0 <= j < |v| && Covers(v[j], a) ==> j == i
    decreases |v|
  {
    forall j | 0 <= j < |v| && Covers(v[j], a) ensures j == i {
      if j < i { Ordered(v, lo, hi, j, i); } else if i < j { Ordered(v, lo, hi, i, j); }
    }
    if i > 0 {
      Ordered(v, lo, hi, 0, i);
      TailTiles(v, lo, hi);
      FlagsAtEntry(v[1..], v[0].end, hi, i - 1, a);
    }
  }

  /** Every address of the space is covered. */
  lemma {:induction false} CoverExists(v: seq<Extent>, lo: nat, hi: nat, a: nat) returns (i: nat)
    requires Tiles(v, lo, hi) && lo <= a < hi
    ensures i < |v| && Covers(v[i], a)
    decreases |v|
  {
    if a < v[0].end {
      i := 0;
    } else {
      TailTiles(v, lo, hi);
      i := CoverExists(v[1..], v[0].end, hi, a);
      i := i + 1;
    }
  }

  lemma Coverable(v: seq<Extent>, lo: nat, hi: nat, a: nat)
    requires Tiles(v, lo, hi) && lo <= a < hi
    ensures exists i: nat :: i < |v| && Covers(v[i], a) && FlagsAt(v, a) == v[i].flags
  {
    var i := CoverExists(v, lo, hi, a);
    FlagsAtEntry(v, lo, hi, i, a);
  }

  /** The index of the entry that covers an address. */
  ghost function IndexOf(v: seq<Extent>, lo: nat, hi: nat, a: nat): (i: nat)
    requires Tiles(v, lo, hi) && lo <= a < hi
    ensures i < |v| && Covers(v[i], a) && FlagsAt(v, a) == v[i].flags
  {
    Coverable(v, lo, hi, a);
    var i: nat :| i < |v| && Covers(v[i], a) && FlagsAt(v, a) == v[i].flags;
    i
  }

  /** Where the next entry has to start. */
  ghost function EndOf(v: seq<Extent>, lo: nat): nat {
    if |v| == 0 then lo else v[|v| - 1].end
  }

  lemma TilesPrefix(a: seq<Extent>, b: seq<Extent>, lo: nat, hi: nat)
    requires Tiles(a + b, lo, hi)
    ensures Tiles(a, lo, EndOf(a, lo))
  {
    var v := a + b;
    assert forall i :: 0 <= i < |a| ==> a[i] == v[i];
    forall i: nat | i + 1 < |a| ensures Meets(a, i) { assert Meets(v, i); }
  }

  lemma TilesSuffix(a: seq<Extent>, b: seq<Extent>, lo: nat, hi: nat)
    requires Tiles(a + b, lo, hi)
    ensures Tiles(b, EndOf(a, lo), hi)
  {
    var v, n := a + b, |a|;
    assert forall i :: 0 <= i < |b| ==> b[i] == v[n + i];
    forall i: nat | i + 1 < |b| ensures Meets(b, i) { assert Meets(v, n + i); }
    assert 0 < n < |v| ==> Meets(v, n - 1);
  }

  lemma TilesConcat(a: seq<Extent>, b: seq<Extent>, lo: nat, hi: nat)
    requires Tiles(a, lo, EndOf(a, lo)) && Tiles(b, EndOf(a, lo), hi)
    ensures Tiles(a + b, lo, hi)
  {
    var v, n := a + b, |a|;
    forall i: nat | i + 1 < |v| ensures Meets(v, i) {
      if i + 1 < n { assert Meets(a, i); } else if i >= n { assert Meets(b, i - n); }
    }
  }

  lemma {:induction false} FlagsConcat(a: seq<Extent>, b: seq<Extent>, lo: nat, mid: nat, x: nat)
    requires Tiles(a, lo, mid) && lo <= x
    ensures FlagsAt(a + b, x) == if x < mid then FlagsAt(a, x) else FlagsAt(b, x)
    decreases |a|
  {
    if |a| == 0 {
      assert a + b == b;
    } else {
      assert (a + b)[1..] == a[1..] + b;
      TailTiles(a, lo, mid);
      EndsBelow(a, lo, mid, 0);
      if a[0].end <= x { FlagsConcat(a[1..], b, a[0].end, mid, x); }
    }
  }

  /** Replacing a run of entries by another run over the same range changes the meaning on
      that range only, to what the new run says. */
  lemma Substitute(a: seq<Extent>, b: seq<Extent>, b': seq<Extent>, c: seq<Extent>, s: nat, e: nat, hi: nat)
    requires Tiles(a + b + c, 0, hi)
    requires s == EndOf(a, 0) && e == EndOf(b, s) && Tiles(b', s, e)
    ensures Tiles(a + b' + c, 0, hi)
    ensures forall x {:trigger FlagsAt(a + b' + c, x)} :: 0 <= x ==>
      FlagsAt(a + b' + c, x) == if s <= x < e then FlagsAt(b', x) else FlagsAt(a + b + c, x)
  {
    TilesPrefix(a + b, c, 0, hi);
    TilesSuffix(a + b, c, 0, hi);
    TilesPrefix(a, b, 0, e);
    TilesSuffix(a, b, 0, e);
    TilesConcat(a, b', 0, e);
    TilesConcat(a + b', c, 0, hi);
    forall x | 0 <= x
      ensures FlagsAt(a + b' + c, x) == if s <= x < e then FlagsAt(b', x) else FlagsAt(a + b + c, x)
    {
      FlagsConcat(a + b, c, 0, e, x);
      FlagsConcat(a + b', c, 0, e, x);
      FlagsConcat(a, b, 0, s, x);
      FlagsConcat(a, b', 0, s, x);
      TilesUp(b', s, e);
    }
  }

  lemma TilesUp(v: seq<Extent>, lo: nat, hi: nat)
    requires Tiles(v, lo, hi)
    ensures lo <= hi
  {
    if |v| > 0 { Ordered(v, lo, hi, 0, |v| - 1); }
  }

  /** The minimal tiling of a flags function is unique: two minimal tilings that give every
      address the same flags are the same list. */
  lemma {:induction false} MinimalUnique(v: seq<Extent>, w: seq<Extent>, lo: nat, hi: nat)
    requires Tiles(v, lo, hi) && Tiles(w, lo, hi) && Minimal(v) && Minimal(w)
    requires forall a :: lo <= a < hi ==> FlagsAt(v, a) == FlagsAt(w, a)
    ensures v == w
    decreases |v|
  {
    if lo == hi {
      EmptyMinimal(v, lo);
      EmptyMinimal(w, lo);
    } else {
      TilesUp(v, lo, hi);
      MinimalHead(v, w, lo, hi);
      MinimalHead(w, v, lo, hi);
      TailTiles(v, lo, hi);
      TailTiles(w, lo, hi);
      TailsAgree(v, w, lo, hi);
      MinimalUnique(v[1..], w[1..], v[0].end, hi);
      SameHeadAndTail(v, w);
    }
  }

  lemma SameHeadAndTail(v: seq<Extent>, w: seq<Extent>)
    requires |v| > 0 && |w| > 0 && v[0] == w[0] && v[1..] == w[1..]
    ensures v == w
  {
    assert v == [v[0]] + v[1..] && w == [w[0]] + w[1..];
  }

  lemma EmptyMinimal(v: seq<Extent>, lo: nat)
    requires Tiles(v, lo, lo) && Minimal(v)
    ensures |v| == 0
  {
    if |v| > 0 { EndsBelow(v, lo, lo, 0); }
  }

  lemma TailsAgree(v: seq<Extent>, w: seq<Extent>, lo: nat, hi: nat)
    requires |v| > 0 && |w| > 0 && v[0].end == w[0].end && lo <= v[0].end
    requires forall a :: lo <= a < hi ==> FlagsAt(v, a) == FlagsAt(w, a)
    ensures forall a :: v[0].end <= a < hi ==> FlagsAt(v[1..], a) == FlagsAt(w[1..], a)
  {
    forall a | v[0].end <= a < hi ensures FlagsAt(v[1..], a) == FlagsAt(w[1..], a) {
      assert FlagsAt(v, a) == FlagsAt(w, a);
    }
  }

  lemma MinimalHead(v: seq<Extent>, w: seq<Extent>, lo: nat, hi: nat)
    requires Tiles(v, lo, hi) && Tiles(w, lo, hi) && Minimal(v) && Minimal(w) && lo < hi
    requires forall a :: lo <= a < hi ==> FlagsAt(v, a) == FlagsAt(w, a)
    ensures |v| > 0 && |w| > 0 && w[0].end <= v[0].end && v[0].flags == w[0].flags
  {
    EndsBelow(v, lo, hi, 0);
    EndsBelow(w, lo, hi, 0);
    assert FlagsAt(v, lo) == v[0].flags && FlagsAt(w, lo) == w[0].flags;
    if v[0].end < w[0].end {
      assert Meets(v, 0) && Differ(v, 0);
      EndsBelow(v, lo, hi, 1);
      FlagsAtEntry(v, lo, hi, 1, v[0].end);
      assert false;
    }
  }
}
