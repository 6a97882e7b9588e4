/** The edits amm_modify is made of (split, replace a run, join), as functions on tilings,
    with what each does to the meaning; `Modified` is the whole operation. */
module ExtentEdits {
  import opened Extents
  import opened Distinctness

  ghost function SplitAt(v: seq<Extent>, k: nat, a: nat): seq<Extent>
    requires k < |v|
  {
    v[..k] + [v[k].(end := a), v[k].(start := a)] + v[k + 1..]
  }

  ghost function JoinAt(v: seq<Extent>, k: nat): seq<Extent>
    requires k + 1 < |v|
  {
    v[..k] + [Extent(v[k].start, v[k + 1].end, v[k + 1].flags)] + v[k + 2..]
  }

  /** Same flags everywhere. */
  ghost predicate SameMeaning(v: seq<Extent>, w: seq<Extent>, hi: nat) {
    forall a :: 0 <= a < hi ==> FlagsAt(w, a) == FlagsAt(v, a)
  }

  /** `w` means what `v` means, with [addr, eaddr) overridden by f. */
  ghost predicate Overridden(v: seq<Extent>, w: seq<Extent>, hi: nat, addr: nat, eaddr: nat, f: Flags) {
    forall a :: 0 <= a < hi ==> FlagsAt(w, a) == if addr <= a < eaddr then f else FlagsAt(v, a)
  }

  lemma EndOfPrefix(v: seq<Extent>, hi: nat, k: nat)
    requires Tiles(v, 0, hi) && k < |v|
    ensures EndOf(v[..k], 0) == v[k].start
  {
    assert k > 0 ==> Meets(v, k - 1);
  }

  lemma SplitKeeps(v: seq<Extent>, hi: nat, k: nat, a: nat)
    requires Tiles(v, 0, hi) && k < |v| && v[k].start <= a <= v[k].end
    ensures Tiles(SplitAt(v, k, a), 0, hi)
    ensures SameMeaning(v, SplitAt(v, k, a), hi)
  {
    var old2 := [v[k]];
    var new2 := [v[k].(end := a), v[k].(start := a)];
    assert v == v[..k] + old2 + v[k + 1..];
    EndOfPrefix(v, hi, k);
    Substitute(v[..k], old2, new2, v[k + 1..], v[k].start, v[k].end, hi);
    forall x | v[k].start <= x < v[k].end ensures FlagsAt(v, x) == FlagsAt(new2, x) {
      FlagsAtEntry(v, 0, hi, k, x);
      FlagsAtEntry(new2, v[k].start, v[k].end, if x < a then 0 else 1, x);
    }
  }

  lemma JoinKeeps(v: seq<Extent>, hi: nat, k: nat)
    requires Tiles(v, 0, hi) && k + 1 < |v| && v[k].flags == v[k + 1].flags
    ensures Tiles(JoinAt(v, k), 0, hi)
    ensures SameMeaning(v, JoinAt(v, k), hi)
  {
    var new1 := [Extent(v[k].start, v[k + 1].end, v[k + 1].flags)];
    assert v == v[..k] + [v[k], v[k + 1]] + v[k + 2..];
    EndOfPrefix(v, hi, k);
    assert Meets(v, k);
    Substitute(v[..k], [v[k], v[k + 1]], new1, v[k + 2..], v[k].start, v[k + 1].end, hi);
    forall x | v[k].start <= x < v[k + 1].end ensures FlagsAt(v, x) == FlagsAt(new1, x) {
      FlagsAtEntry(v, 0, hi, if x < v[k].end then k else k + 1, x);
    }
  }

  lemma {:induction false} Reachable(v: seq<Extent>, hi: nat, k: nat, eaddr: nat) returns (m: nat)
    requires Tiles(v, 0, hi) && k < |v| && eaddr <= hi
    ensures IsEndIndex(v, k, m, eaddr)
    decreases |v| - k
  {
    if v[k].end >= eaddr {
      m := k;
    } else {
      m := Reachable(v, hi, k + 1, eaddr);
    }
  }

  /** Entry m is the first from k on that reaches eaddr. */
  ghost predicate IsEndIndex(v: seq<Extent>, k: nat, m: nat, eaddr: nat) {
    k <= m < |v| && v[m].end >= eaddr && forall i :: k <= i < m ==> v[i].end < eaddr
  }

  ghost function EndIndex(v: seq<Extent>, hi: nat, k: nat, eaddr: nat): (m: nat)
    requires Tiles(v, 0, hi) && k < |v| && eaddr <= hi
    ensures IsEndIndex(v, k, m, eaddr)
  {
    assert exists m: nat :: IsEndIndex(v, k, m, eaddr) by { var m := Reachable(v, hi, k, eaddr); }
    var m: nat :| IsEndIndex(v, k, m, eaddr);
    m
  }

  /** The map once [addr, eaddr) is one entry with flags f, before any join.
      Entry k covers addr, entry m is the first to reach eaddr. */
  ghost function Carved(v: seq<Extent>, k: nat, m: nat, addr: nat, eaddr: nat, f: Flags): seq<Extent>
    requires k <= m < |v|
  {
    v[..k] + Piece(v, k, m, addr, eaddr, f) + v[m + 1..]
  }

  ghost function JoinPrev(v: seq<Extent>, p: nat): (r: (seq<Extent>, nat))
    requires p < |v|
    ensures r.1 < |r.0|
  {
    if p > 0 && v[p - 1].flags == v[p].flags then (JoinAt(v, p - 1), p - 1) else (v, p)
  }

  ghost function JoinNext(v: seq<Extent>, p: nat): seq<Extent>
    requires p < |v|
  {
    if p + 1 < |v| && v[p].flags == v[p + 1].flags then JoinAt(v, p) else v
  }

  /** Both joins around entry p. */
  ghost function Joined(v: seq<Extent>, p: nat): seq<Extent>
    requires p < |v|
  {
    var j := JoinPrev(v, p);
    JoinNext(j.0, j.1)
  }

  /** Position of the new entry in the carved map. */
  ghost function NewIndex(v: seq<Extent>, k: nat, addr: nat): nat
    requires k < |v|
  {
    if v[k].start < addr then k + 1 else k
  }

  /** The entries before addr, and those from addr on, when the first of vr covers addr. */
  ghost function Cut(vf: seq<Extent>, vr: seq<Extent>, addr: nat): (r: seq<Extent>)
    requires |vr| > 0
  {
    if vr[0].start < addr then vf + [vr[0].(end := addr)] else vf
  }

  ghost function Uncut(vr: seq<Extent>, addr: nat): (r: seq<Extent>)
    requires |vr| > 0
    ensures |r| == |vr|
  {
    [vr[0].(start := addr)] + vr[1..]
  }

  /** What follows eaddr, when the first entry is the one that reaches it. */
  ghost function Back(v: seq<Extent>, eaddr: nat): seq<Extent>
    requires |v| > 0
  {
    (if v[0].end > eaddr then [v[0].(start := eaddr)] else []) + v[1..]
  }

  lemma BackUncut(b: seq<Extent>, e: nat)
    requires |b| > 0 && b[0].end == e
    ensures [b[0].(end := e)] + Back(b, e) == b
  {
  }

  lemma SplitSeam(s: seq<Extent>, a: seq<Extent>, b: seq<Extent>, k: nat, e: nat)
    requires |b| > 0 && s == a + b && k == |a| && b[0].end > e
    ensures s[k] == b[0] && SplitAt(s, k, e) == a + ([b[0].(end := e)] + Back(b, e))
  {
    assert s[..k] == a && s[k + 1..] == b[1..];
  }

  lemma SplitIsCut(v: seq<Extent>, k: nat, addr: nat)
    requires k < |v| && v[k].start <= addr < v[k].end
    ensures v[k].start < addr ==> SplitAt(v, k, addr) == Cut(v[..k], v[k..], addr) + Uncut(v[k..], addr)
    ensures v[k].start == addr ==> Cut(v[..k], v[k..], addr) == v[..k] && Uncut(v[k..], addr) == v[k..]
  {
  }

  /** What amm_modify turns the map into. */
  ghost function Modified(v: seq<Extent>, hi: nat, addr: nat, eaddr: nat, f: Flags): seq<Extent>
    requires Tiles(v, 0, hi) && addr < hi && addr <= eaddr <= hi
  {
    var k := IndexOf(v, 0, hi, addr);
    if eaddr <= v[k].end && v[k].flags == f then v
    else
      var m := EndIndex(v, hi, k, eaddr);
      Joined(Carved(v, k, m, addr, eaddr, f), NewIndex(v, k, addr))
  }

  /** Carved, seen as amm_modify builds it: split the front, drop the covered entries, split
      the back, put the new entry. */
  lemma CarvedByPhases(v: seq<Extent>, k: nat, m: nat, addr: nat, eaddr: nat, f: Flags,
                       vf: seq<Extent>, vr: seq<Extent>, d: nat)
    requires k <= m < |v| && vf == v[..k] && vr == v[k..] && d == m - k
    ensures Carved(v, k, m, addr, eaddr, f) ==
            Cut(vf, vr, addr) + ([Extent(addr, eaddr, f)] + Back(Uncut(vr, addr)[d..], eaddr))
  {
    var tail := Uncut(vr, addr)[d..];
    assert vr[1..] == v[k + 1..];
    assert tail[1..] == v[m + 1..];
    assert tail[0].end == v[m].end && tail[0].(start := eaddr) == v[m].(start := eaddr);
    assert Cut(vf, vr, addr) == vf + if v[k].start < addr then [v[k].(end := addr)] else [];
    ConcatAssoc(vf, if v[k].start < addr then [v[k].(end := addr)] else [], [Extent(addr, eaddr, f)],
                if v[m].end > eaddr then [v[m].(start := eaddr)] else [], v[m + 1..]);
  }

  lemma ConcatAssoc(a: seq<Extent>, b: seq<Extent>, c: seq<Extent>, d: seq<Extent>, e: seq<Extent>)
    ensures (a + b) + (c + (d + e)) == a + (b + c + d) + e
  {
  }

  /** Entry d is the first to reach eaddr. */
  ghost predicate Reaching(v: seq<Extent>, d: nat, eaddr: nat)
    requires d < |v|
  {
    v[d].start <= eaddr <= v[d].end && forall i :: 0 <= i < d ==> v[i].end < eaddr
  }

  /** The entries from addr on, up to the one that reaches eaddr, end before it. */
  lemma UncutEnds(v: seq<Extent>, hi: nat, k: nat, m: nat, addr: nat, eaddr: nat)
    requires Tiles(v, 0, hi) && k < |v| && Covers(v[k], addr) && addr <= eaddr <= hi
    requires IsEndIndex(v, k, m, eaddr)
    ensures Reaching(Uncut(v[k..], addr), m - k, eaddr)
  {
    var r := Uncut(v[k..], addr);
    assert forall i :: 0 <= i < |r| ==> r[i].end == v[k + i].end;
    if m > k { assert v[m - 1].end < eaddr && Meets(v, m - 1); }
  }

  lemma CarvedOverrides(v: seq<Extent>, hi: nat, k: nat, m: nat, addr: nat, eaddr: nat, f: Flags)
    requires Tiles(v, 0, hi) && k <= m < |v| && Covers(v[k], addr) && addr <= eaddr <= hi
    requires IsEndIndex(v, k, m, eaddr)
    ensures var c := Carved(v, k, m, addr, eaddr, f);
      Tiles(c, 0, hi) && Overridden(v, c, hi, addr, eaddr, f)
  {
    var piece := Piece(v, k, m, addr, eaddr, f);
    var c := Carved(v, k, m, addr, eaddr, f);
    assert v == v[..k] + v[k..m + 1] + v[m + 1..];
    assert c == v[..k] + piece + v[m + 1..];
    EndOfPrefix(v, hi, k);
    PieceTiles(v, hi, k, m, addr, eaddr, f);
    Substitute(v[..k], v[k..m + 1], piece, v[m + 1..], v[k].start, v[m].end, hi);
    forall a | 0 <= a < hi ensures FlagsAt(c, a) == if addr <= a < eaddr then f else FlagsAt(v, a) {
      assert FlagsAt(v[..k] + piece + v[m + 1..], a) == FlagsAt(c, a);
      if v[k].start <= a < v[m].end { PieceOverrides(v, hi, k, m, addr, eaddr, f, a); }
    }
  }

  /** The part of the carved map that stands for entries k..m. */
  ghost function Piece(v: seq<Extent>, k: nat, m: nat, addr: nat, eaddr: nat, f: Flags): seq<Extent>
    requires k <= m < |v|
  {
    (if v[k].start < addr then [v[k].(end := addr)] else [])
    + [Extent(addr, eaddr, f)]
    + (if v[m].end > eaddr then [v[m].(start := eaddr)] else [])
  }

  lemma PieceTiles(v: seq<Extent>, hi: nat, k: nat, m: nat, addr: nat, eaddr: nat, f: Flags)
    requires Tiles(v, 0, hi) && k <= m < |v| && Covers(v[k], addr) && addr <= eaddr <= hi
    requires IsEndIndex(v, k, m, eaddr)
    ensures Tiles(Piece(v, k, m, addr, eaddr, f), v[k].start, v[m].end)
    ensures addr <= eaddr <= v[m].end && (v[m].end > eaddr ==> v[m].start <= eaddr)
  {
    if k < m { assert v[m - 1].end < eaddr && Meets(v, m - 1); }
  }

  lemma PieceOverrides(v: seq<Extent>, hi: nat, k: nat, m: nat, addr: nat, eaddr: nat, f: Flags, a: nat)
    requires Tiles(v, 0, hi) && k <= m < |v| && Covers(v[k], addr) && addr <= eaddr <= hi
    requires IsEndIndex(v, k, m, eaddr) && v[k].start <= a < v[m].end
    ensures FlagsAt(Piece(v, k, m, addr, eaddr, f), a) == if addr <= a < eaddr then f else FlagsAt(v, a)
  {
    var p := Piece(v, k, m, addr, eaddr, f);
    PieceTiles(v, hi, k, m, addr, eaddr, f);
    if a < addr {
      FlagsAtEntry(v, 0, hi, k, a);
      FlagsAtEntry(p, v[k].start, v[m].end, 0, a);
    } else if a >= eaddr {
      FlagsAtEntry(v, 0, hi, m, a);
      FlagsAtEntry(p, v[k].start, v[m].end, |p| - 1, a);
    } else {
      FlagsAtEntry(p, v[k].start, v[m].end, if v[k].start < addr then 1 else 0, a);
    }
  }

  /** A modify leaves a tiling that means the old one with [addr, eaddr) overridden. */
  lemma ModifiedOverrides(v: seq<Extent>, hi: nat, addr: nat, eaddr: nat, f: Flags)
    requires Tiles(v, 0, hi) && addr < hi && addr <= eaddr <= hi
    ensures Tiles(Modified(v, hi, addr, eaddr, f), 0, hi)
    ensures Overridden(v, Modified(v, hi, addr, eaddr, f), hi, addr, eaddr, f)
  {
    var k := IndexOf(v, 0, hi, addr);
    if eaddr <= v[k].end && v[k].flags == f {
      forall a | addr <= a < eaddr ensures FlagsAt(v, a) == f { FlagsAtEntry(v, 0, hi, k, a); }
    } else {
      var m := EndIndex(v, hi, k, eaddr);
      CarvedOverrides(v, hi, k, m, addr, eaddr, f);
      JoinsKeep(Carved(v, k, m, addr, eaddr, f), hi, NewIndex(v, k, addr));
    }
  }

  lemma JoinsKeep(c: seq<Extent>, hi: nat, p: nat)
    requires Tiles(c, 0, hi) && p < |c|
    ensures Tiles(Joined(c, p), 0, hi) && SameMeaning(c, Joined(c, p), hi)
  {
    if p > 0 && c[p - 1].flags == c[p].flags { JoinKeeps(c, hi, p - 1); }
    var j := JoinPrev(c, p);
    if j.1 + 1 < |j.0| && j.0[j.1].flags == j.0[j.1 + 1].flags { JoinKeeps(j.0, hi, j.1); }
  }

  /** What an allocation failure may leave: the entries before addr, then those from the one
      that reaches eaddr on, the latter possibly cut at eaddr. */
  ghost predicate Leftover(w: seq<Extent>, before: seq<Extent>, from: seq<Extent>, eaddr: nat)
    requires |from| > 0
  {
    w == before + from || w == before + ([from[0].(end := eaddr)] + Back(from, eaddr))
  }

  /** What a modify relies on: vf and vr are the entries before and from the one that covers
      addr, b those before addr, c the carved map; the joins of c tile the space. */
  lemma PlanCarve(v: seq<Extent>, hi: nat, k: nat, m: nat, addr: nat, eaddr: nat, f: Flags)
    returns (vf: seq<Extent>, vr: seq<Extent>, d: nat, b: seq<Extent>, c: seq<Extent>)
    requires Tiles(v, 0, hi) && k < |v| && Covers(v[k], addr) && addr <= eaddr <= hi && IsEndIndex(v, k, m, eaddr)
    ensures v == vf + vr && |vf| == k && d == m - k < |vr| && vr[0] == v[k]
    ensures Reaching(Uncut(vr, addr), d, eaddr)
    ensures b == Cut(vf, vr, addr) && |b| == NewIndex(v, k, addr) && c == Carved(v, k, m, addr, eaddr, f) && |b| < |c|
    ensures c == b + ([Extent(addr, eaddr, f)] + Back(Uncut(vr, addr)[d..], eaddr))
    ensures Contiguous(c) && Tiles(Joined(c, |b|), 0, hi)
  {
    vf, vr, d := v[..k], v[k..], m - k;
    TakeDrop(v, k);
    UncutEnds(v, hi, k, m, addr, eaddr);
    b, c := Cut(vf, vr, addr), Carved(v, k, m, addr, eaddr, f);
    CarvedByPhases(v, k, m, addr, eaddr, f, vf, vr, d);
    CarvedOverrides(v, hi, k, m, addr, eaddr, f);
    JoinsKeep(c, hi, |b|);
  }

  lemma ModifiedIs(v: seq<Extent>, hi: nat, addr: nat, eaddr: nat, f: Flags)
    requires Tiles(v, 0, hi) && addr < hi && addr <= eaddr <= hi
    ensures var k := IndexOf(v, 0, hi, addr); var m := EndIndex(v, hi, k, eaddr);
      !(eaddr <= v[k].end && v[k].flags == f) ==>
        Modified(v, hi, addr, eaddr, f) == Joined(Carved(v, k, m, addr, eaddr, f), NewIndex(v, k, addr))
  {
  }

  lemma LeftoverOutcome(v: seq<Extent>, hi: nat, k: nat, m: nat, addr: nat, eaddr: nat, vf: seq<Extent>,
                        vr: seq<Extent>, d: nat, b: seq<Extent>, w: seq<Extent>)
    requires Tiles(v, 0, hi) && k < |v| && Covers(v[k], addr) && addr <= eaddr <= hi && IsEndIndex(v, k, m, eaddr)
    requires v == vf + vr && |vf| == k && d == m - k && b == Cut(vf, vr, addr)
    requires w == vf + vr || Leftover(w, b, Uncut(vr, addr)[d..], eaddr)
    ensures Tiles(w, 0, hi) <==> w == v || eaddr <= v[k].end
    ensures Tiles(w, 0, hi) ==> SameMeaning(v, w, hi)
    ensures Tiles(w, 0, hi) && Solid(v) && addr < eaddr ==> Solid(w)
  {
    assert vf == v[..k] && vr == v[k..];
    if w != v {
      if m == k {
        assert Uncut(vr, addr)[0..] == Uncut(vr, addr);
        LeftoverKeeps(v, hi, k, addr, eaddr, w);
        LeftoverSolid(v, k, addr, eaddr, w);
      } else {
        LeftoverGap(v, hi, k, m, addr, eaddr, w);
      }
    }
  }

  /** When nothing was deleted, what is left still tiles the space and means the same. */
  lemma LeftoverKeeps(v: seq<Extent>, hi: nat, k: nat, addr: nat, eaddr: nat, w: seq<Extent>)
    requires Tiles(v, 0, hi) && k < |v| && Covers(v[k], addr) && addr <= eaddr <= v[k].end
    requires Leftover(w, Cut(v[..k], v[k..], addr), Uncut(v[k..], addr), eaddr)
    ensures Tiles(w, 0, hi) && SameMeaning(v, w, hi)
  {
    var b, r := Cut(v[..k], v[k..], addr), Uncut(v[k..], addr);
    FrontKeeps(v, hi, k, addr);
    if w != b + r { BackKeeps(b, r, hi, eaddr); }
  }

  lemma LeftoverSolid(v: seq<Extent>, k: nat, addr: nat, eaddr: nat, w: seq<Extent>)
    requires k < |v| && Covers(v[k], addr) && addr <= eaddr <= v[k].end
    requires Leftover(w, Cut(v[..k], v[k..], addr), Uncut(v[k..], addr), eaddr)
    ensures Solid(v) && addr < eaddr ==> Solid(w)
  {
    if Solid(v) && addr < eaddr {
      var b, r := Cut(v[..k], v[k..], addr), Uncut(v[k..], addr);
      assert Solid(b) && Solid(r) && Solid(Back(r, eaddr));
    }
  }

  lemma FrontKeeps(v: seq<Extent>, hi: nat, k: nat, addr: nat)
    requires Tiles(v, 0, hi) && k < |v| && Covers(v[k], addr)
    ensures var w := Cut(v[..k], v[k..], addr) + Uncut(v[k..], addr); Tiles(w, 0, hi) && SameMeaning(v, w, hi)
  {
    SplitIsCut(v, k, addr);
    if v[k].start < addr { SplitKeeps(v, hi, k, addr); } else { assert v == v[..k] + v[k..]; }
  }

  lemma BackKeeps(b: seq<Extent>, r: seq<Extent>, hi: nat, eaddr: nat)
    requires Tiles(b + r, 0, hi) && |r| > 0 && r[0].start <= eaddr <= r[0].end
    ensures var w := b + ([r[0].(end := eaddr)] + Back(r, eaddr)); Tiles(w, 0, hi) && SameMeaning(b + r, w, hi)
  {
    if r[0].end > eaddr {
      SplitSeam(b + r, b, r, |b|, eaddr);
      SplitKeeps(b + r, hi, |b|, eaddr);
    } else {
      BackUncut(r, eaddr);
    }
  }

  /** When entries were deleted, there is a gap at addr. */
  lemma LeftoverGap(v: seq<Extent>, hi: nat, k: nat, m: nat, addr: nat, eaddr: nat, w: seq<Extent>)
    requires Tiles(v, 0, hi) && k < m < |v| && Covers(v[k], addr)
    requires Leftover(w, Cut(v[..k], v[k..], addr), Uncut(v[k..], addr)[m - k..], eaddr)
    ensures !Tiles(w, 0, hi)
  {
    var b := Cut(v[..k], v[k..], addr);
    var p := |b|;
    Ordered(v, 0, hi, k, m);
    assert Uncut(v[k..], addr)[m - k..][0] == v[m];
    assert w[p].start == v[m].start;
    if p > 0 {
      EndOfPrefix(v, hi, k);
      assert w[p - 1] == b[p - 1] && b[p - 1].end == addr;
      assert !Meets(w, p - 1);
    }
  }

  /** Minimal, except that entry p may repeat the flags of its neighbours. */
  ghost predicate MinimalBut(v: seq<Extent>, p: nat) {
    && Solid(v)
    && (forall i: nat {:trigger Differ(v, i)} :: i + 1 < |v| && i != p && i + 1 != p ==> Differ(v, i))
  }

  lemma CarvedMinimalBut(v: seq<Extent>, hi: nat, k: nat, m: nat, addr: nat, eaddr: nat, f: Flags)
    requires Tiles(v, 0, hi) && Minimal(v) && k <= m < |v| && Covers(v[k], addr) && addr < eaddr <= hi
    requires IsEndIndex(v, k, m, eaddr)
    ensures MinimalBut(Carved(v, k, m, addr, eaddr, f), NewIndex(v, k, addr))
  {
    var c, p := Carved(v, k, m, addr, eaddr, f), NewIndex(v, k, addr);
    var q := p + 1 + if v[m].end > eaddr then 1 else 0;
    assert |c| == q + |v| - (m + 1);
    assert forall i :: 0 <= i < k ==> c[i] == v[i];
    assert forall i :: q <= i < |c| ==> c[i] == v[i - q + m + 1];
    forall i: nat | i + 1 < |c| && i != p && i + 1 != p ensures Differ(c, i) {
      if i + 1 <= k { assert Differ(v, i); } else { assert Differ(v, i - q + m + 1); }
    }
  }

  lemma JoinsRestoreMinimal(c: seq<Extent>, p: nat)
    requires p < |c| && MinimalBut(c, p) && Contiguous(c)
    ensures Minimal(Joined(c, p))
  {
    var j := JoinPrev(c, p);
    JoinPrevMinimalBut(c, p);
    JoinNextMinimal(j.0, j.1);
  }

  lemma JoinNextMinimal(v: seq<Extent>, n: nat)
    requires n < |v| && MinimalBut(v, n) && Contiguous(v)
    requires n > 0 ==> v[n - 1].flags != v[n].flags
    ensures Minimal(JoinNext(v, n))
  {
    var w := JoinNext(v, n);
    if n + 1 < |v| && v[n].flags == v[n + 1].flags {
      JoinLocal(v, n);
      assert Meets(v, n);
      forall i: nat | i + 1 < |w| ensures Differ(w, i) {
        if i + 1 < n { assert Differ(v, i); } else if i >= n { assert Differ(v, i + 1); }
      }
    } else {
      forall i: nat | i + 1 < |w| ensures Differ(w, i) {
        if i != n && i + 1 != n { assert Differ(v, i); }
      }
    }
  }

  lemma JoinPrevContiguous(c: seq<Extent>, p: nat)
    requires p < |c| && Contiguous(c)
    ensures Contiguous(JoinPrev(c, p).0)
  {
    if p > 0 && c[p - 1].flags == c[p].flags {
      JoinLocal(c, p - 1);
      var w := JoinPrev(c, p).0;
      forall i: nat | i + 1 < |w| ensures Meets(w, i) {
        assert Meets(c, if i + 1 < p then i else i + 1);
      }
    }
  }

  lemma JoinPrevMinimalBut(c: seq<Extent>, p: nat)
    requires p < |c| && MinimalBut(c, p) && Contiguous(c)
    ensures var j := JoinPrev(c, p);
      && MinimalBut(j.0, j.1) && Contiguous(j.0)
      && (j.1 > 0 ==> j.0[j.1 - 1].flags != j.0[j.1].flags)
  {
    JoinPrevContiguous(c, p);
    if p > 0 && c[p - 1].flags == c[p].flags {
      JoinLocal(c, p - 1);
      assert Meets(c, p - 1) && (p > 1 ==> Differ(c, p - 2));
      var w := JoinPrev(c, p).0;
      forall i: nat | i + 1 < |w| && i != p - 1 && i + 1 != p - 1 ensures Differ(w, i) {
        assert Differ(c, if i + 1 < p then i else i + 1);
      }
    }
  }

  lemma JoinLocal(v: seq<Extent>, n: nat)
    requires n + 1 < |v|
    ensures var w := JoinAt(v, n);
      && |w| == |v| - 1
      && w[n] == Extent(v[n].start, v[n + 1].end, v[n + 1].flags)
      && (forall i :: 0 <= i < n ==> w[i] == v[i])
      && (forall i :: n < i < |w| ==> w[i] == v[i + 1])
  {
  }

  lemma CarvedSolid(v: seq<Extent>, hi: nat, k: nat, m: nat, addr: nat, eaddr: nat, f: Flags)
    requires Tiles(v, 0, hi) && Solid(v) && k <= m < |v| && Covers(v[k], addr) && addr < eaddr <= hi
    requires IsEndIndex(v, k, m, eaddr)
    ensures Solid(Carved(v, k, m, addr, eaddr, f))
  {
  }

  lemma JoinedSolid(c: seq<Extent>, p: nat)
    requires p < |c| && Solid(c) && Contiguous(c)
    ensures Solid(Joined(c, p))
  {
    JoinPrevContiguous(c, p);
    if p > 0 && c[p - 1].flags == c[p].flags { JoinLocal(c, p - 1); assert Meets(c, p - 1); }
    var j := JoinPrev(c, p);
    if j.1 + 1 < |j.0| && j.0[j.1].flags == j.0[j.1 + 1].flags { JoinLocal(j.0, j.1); assert Meets(j.0, j.1); }
  }

  /** A modify of a non-empty range leaves no empty entry where there was none. */
  lemma ModifiedSolid(v: seq<Extent>, hi: nat, addr: nat, eaddr: nat, f: Flags)
    requires Tiles(v, 0, hi) && Solid(v) && addr < eaddr <= hi
    ensures Solid(Modified(v, hi, addr, eaddr, f))
  {
    var k := IndexOf(v, 0, hi, addr);
    var m := EndIndex(v, hi, k, eaddr);
    CarvedOverrides(v, hi, k, m, addr, eaddr, f);
    CarvedSolid(v, hi, k, m, addr, eaddr, f);
    JoinedSolid(Carved(v, k, m, addr, eaddr, f), NewIndex(v, k, addr));
  }

  /** A modify of a non-empty range keeps the map minimal. */
  lemma ModifiedMinimal(v: seq<Extent>, hi: nat, addr: nat, eaddr: nat, f: Flags)
    requires Tiles(v, 0, hi) && Minimal(v) && addr < eaddr <= hi
    ensures Minimal(Modified(v, hi, addr, eaddr, f))
  {
    var k := IndexOf(v, 0, hi, addr);
    var m := EndIndex(v, hi, k, eaddr);
    CarvedOverrides(v, hi, k, m, addr, eaddr, f);
    CarvedMinimalBut(v, hi, k, m, addr, eaddr, f);
    JoinsRestoreMinimal(Carved(v, k, m, addr, eaddr, f), NewIndex(v, k, addr));
  }
}
