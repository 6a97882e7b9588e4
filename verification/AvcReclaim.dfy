/** avc_reclaim_node: the second-chance choice of the node to reuse. */
module AvcReclaim {
  import opened AvcChains

  /** The k-th slot a scan from hint comes to. */
  function At(hint: nat, k: nat): (h: nat)
    requires hint < SLOTS && k < SLOTS
    ensures h < SLOTS
  {
    if hint + k < SLOTS then hint + k else hint + k - SLOTS
  }

  /** The place of a slot in a scan from hint. */
  function Turn(hint: nat, h: nat): (k: nat)
    requires hint < SLOTS && h < SLOTS
    ensures k < SLOTS && At(hint, k) == h
    ensures forall j :: 0 <= j < SLOTS && At(hint, j) == h ==> j == k
  {
    if h >= hint then h - hint else h + SLOTS - hint
  }

  ghost predicate Marked(c: seq<Node>, p: nat)
    requires p <= |c|
  {
    forall j :: 0 <= j < p ==> c[j].used
  }

  ghost predicate AllMarked(slots: seq<seq<Node>>) {
    forall i :: 0 <= i < |slots| ==> Marked(slots[i], |slots[i]|)
  }

  /** n is o after a scan from hint has cleared the marks of k whole slots. */
  ghost predicate Cleared(o: seq<seq<Node>>, n: seq<seq<Node>>, hint: nat, k: nat) {
    && |o| == |n| == SLOTS && hint < SLOTS
    && forall i :: 0 <= i < SLOTS ==>
         && (Turn(hint, i) < k ==> Marked(o[i], |o[i]|) && n[i] == Unmark(o[i], |o[i]|))
         && (Turn(hint, i) >= k ==> n[i] == o[i])
  }

  /** Node p of the k-th slot is the first unmarked node of the scan; n is o after the scan. */
  ghost predicate Stopped(o: seq<seq<Node>>, n: seq<seq<Node>>, hint: nat, k: nat, p: nat) {
    && |o| == |n| == SLOTS && hint < SLOTS && k < SLOTS
    && (var h := At(hint, k);
        p < |o[h]| && Marked(o[h], p) && !o[h][p].used && Cleared(o, n[h := o[h]], hint, k) && n[h] == Unmark(o[h], p))
  }

  /** The inner loop: clears marks up to the first unmarked node of a chain. */
  method ScanChain(c: seq<Node>) returns (d: seq<Node>, p: nat)
    ensures p <= |c| && Marked(c, p) && (p < |c| ==> !c[p].used) && d == Unmark(c, p)
  {
    d, p := c, 0;
    assert c == Unmark(c, 0);
    while p < |c|
      invariant p <= |c| && Marked(c, p) && d == Unmark(c, p)
    {
      if !d[p].used {
        return;
      }
      d := d[p := d[p].(used := false)];
      p := p + 1;
    }
  }

  /** The do loop: one sweep over the slots, from hint on. */
  method Sweep(slots: seq<seq<Node>>, hint: nat)
    returns (found: bool, after: seq<seq<Node>>, h: nat, p: nat, ghost k: nat)
    requires |slots| == SLOTS && hint < SLOTS
    ensures found ==> k < SLOTS && h == At(hint, k) && Stopped(slots, after, hint, k, p)
    ensures !found ==> Cleared(slots, after, hint, SLOTS)
  {
    after, h, p, k := slots, hint, 0, 0;
    while true
      invariant k < SLOTS && h == At(hint, k) && Cleared(slots, after, hint, k)
      decreases SLOTS - k
    {
      var c;
      c, p := ScanChain(after[h]);
      if p < |after[h]| {
        assert after[h := c][h := slots[h]] == after;
        return true, after[h := c], h, p, k;
      }
      ghost var before := after;
      after := after[h := c];
      ClearOne(slots, before, after, hint, k);
      h := if h + 1 == SLOTS then 0 else h + 1;
      k := k + 1;
      if h == hint {
        return false, after, h, p, k;
      }
    }
  }

  lemma ClearOne(o: seq<seq<Node>>, n: seq<seq<Node>>, n': seq<seq<Node>>, hint: nat, k: nat)
    requires Cleared(o, n, hint, k) && k < SLOTS
    requires var h := At(hint, k); n' == n[h := Unmark(n[h], |n[h]|)] && Marked(n[h], |n[h]|)
    ensures Cleared(o, n', hint, k + 1)
  {
    var h := At(hint, k);
    assert Turn(hint, h) == k;
    forall i | 0 <= i < SLOTS && i != h ensures Turn(hint, i) != k { assert At(hint, Turn(hint, i)) == i; }
  }

  /** The k-th slot is the first of the scan that is not empty. */
  ghost predicate FirstFilled(slots: seq<seq<Node>>, hint: nat, k: nat) {
    && |slots| == SLOTS && hint < SLOTS && k < SLOTS
    && slots[At(hint, k)] != []
    && forall i :: 0 <= i < k ==> slots[At(hint, i)] == []
  }

  /** What avc_reclaim_node does. If some node is unmarked, it takes the first such node of the scan
      and clears the marks of those before it; if none is, it clears all marks and takes the first
      node of the scan. */
  ghost predicate Reclaimed(o: seq<seq<Node>>, n: seq<seq<Node>>, hint: nat, k: nat, p: nat)
    requires |o| == |n| == SLOTS && hint < SLOTS && k < SLOTS && p < |o[At(hint, k)]|
  {
    var h := At(hint, k);
    && (!AllMarked(o) ==>
          && Marked(o[h], p) && !o[h][p].used && Cleared(o, n[h := o[h]], hint, k)
          && n[h] == Unmark(o[h], p)[..p] + o[h][p + 1..])
    && (AllMarked(o) ==>
          && p == 0 && FirstFilled(o, hint, k)
          && n[h] == Unmark(o[h], |o[h]|)[1..]
          && forall i :: 0 <= i < SLOTS && i != h ==> n[i] == Unmark(o[i], |o[i]|))
  }

  /** avc_reclaim_node, up to the unlinking of the node. It panics only if no node is cached. */
  method Choose(slots: seq<seq<Node>>, hint: nat)
    returns (panic: bool, after: seq<seq<Node>>, h: nat, p: nat, ghost k: nat)
    requires |slots| == SLOTS && hint < SLOTS
    ensures panic <==> Total(slots) == 0
    ensures !panic ==> |after| == SLOTS && k < SLOTS && h == At(hint, k) && p < |slots[h]| && |after[h]| == |slots[h]|
    ensures !panic ==> Reclaimed(slots, after[h := after[h][..p] + after[h][p + 1..]], hint, k, p)
  {
    var found;
    found, after, h, p, k := Sweep(slots, hint);
    if found {
      FoundAtOnce(slots, after, hint, k, p);
      return false, after, h, p, k;
    }
    ghost var mid := after;
    SweptOnce(slots, mid, hint);
    found, after, h, p, k := Sweep(after, hint);
    panic := !found;
    if found {
      FoundAgain(slots, mid, after, hint, k, p);
    } else {
      NothingThere(slots, mid, after, hint);
    }
  }

  lemma FoundAtOnce(o: seq<seq<Node>>, n: seq<seq<Node>>, hint: nat, k: nat, p: nat)
    requires Stopped(o, n, hint, k, p)
    ensures var h := At(hint, k); Reclaimed(o, n[h := n[h][..p] + n[h][p + 1..]], hint, k, p)
    ensures Total(o) != 0
  {
    var h := At(hint, k);
    TotalZero(o);
    assert !Marked(o[h], |o[h]|);
    var n' := n[h := n[h][..p] + n[h][p + 1..]];
    assert n'[h := o[h]] == n[h := o[h]];
    assert n[h][p + 1..] == o[h][p + 1..];
  }

  lemma SweptOnce(o: seq<seq<Node>>, n: seq<seq<Node>>, hint: nat)
    requires Cleared(o, n, hint, SLOTS)
    ensures AllMarked(o) && forall i :: 0 <= i < SLOTS ==> n[i] == Unmark(o[i], |o[i]|)
  {
  }

  lemma NoMarkLeft(c: seq<Node>, p: nat)
    requires p <= |c| && Marked(Unmark(c, |c|), p)
    ensures p == 0
  {
    var u := Unmark(c, |c|);
    assert u == [] || !u[0].used;
  }

  /** Unmarked chains that a second pass went through are empty, and it left all others alone. */
  lemma SecondPass(o: seq<seq<Node>>, m: seq<seq<Node>>, n: seq<seq<Node>>, hint: nat, k: nat, p: nat)
    requires |o| == SLOTS && |m| == SLOTS && forall i :: 0 <= i < SLOTS ==> m[i] == Unmark(o[i], |o[i]|)
    requires Stopped(m, n, hint, k, p)
    ensures forall i :: 0 <= i < k ==> o[At(hint, i)] == []
    ensures forall i :: 0 <= i < SLOTS && i != At(hint, k) ==> n[i] == Unmark(o[i], |o[i]|)
  {
    var h := At(hint, k);
    forall i | 0 <= i < k ensures o[At(hint, i)] == [] {
      var g := At(hint, i);
      assert Turn(hint, g) == i && Turn(hint, h) == k && g != h;
      assert Marked(m[g], |m[g]|);
      NoMarkLeft(o[g], |o[g]|);
    }
    forall i | 0 <= i < SLOTS && i != h ensures n[i] == Unmark(o[i], |o[i]|) {
      assert n[h := m[h]][i] == n[i];
      if Turn(hint, i) < k { EmptyOrUnmarked(m[i]); }
    }
  }

  lemma FoundAgain(o: seq<seq<Node>>, m: seq<seq<Node>>, n: seq<seq<Node>>, hint: nat, k: nat, p: nat)
    requires |o| == SLOTS && AllMarked(o) && |m| == SLOTS && forall i :: 0 <= i < SLOTS ==> m[i] == Unmark(o[i], |o[i]|)
    requires Stopped(m, n, hint, k, p)
    ensures var h := At(hint, k); p < |o[h]| && Reclaimed(o, n[h := n[h][..p] + n[h][p + 1..]], hint, k, p)
    ensures Total(o) != 0
  {
    var h := At(hint, k);
    TotalZero(o);
    NoMarkLeft(o[h], p);
    SecondPass(o, m, n, hint, k, p);
    assert n[h] == m[h];
  }

  /** A chain of unmarked nodes all of which are marked is empty, so that clearing changes nothing. */
  lemma EmptyOrUnmarked(c: seq<Node>)
    requires Marked(c, |c|) && forall j :: 0 <= j < |c| ==> !c[j].used
    ensures Unmark(c, |c|) == c
  {
  }

  lemma NothingThere(o: seq<seq<Node>>, m: seq<seq<Node>>, n: seq<seq<Node>>, hint: nat)
    requires |o| == SLOTS && |m| == SLOTS && (forall i :: 0 <= i < SLOTS ==> m[i] == Unmark(o[i], |o[i]|))
    requires Cleared(m, n, hint, SLOTS)
    ensures Total(o) == 0
  {
    forall i | 0 <= i < SLOTS ensures o[i] == [] {
      assert Marked(m[i], |m[i]|);
      NoMarkLeft(o[i], |o[i]|);
    }
    TotalZero(o);
  }

  /** The node taken was unmarked if any node was, and no other node is lost. */
  lemma ReclaimedMeans(o: seq<seq<Node>>, n: seq<seq<Node>>, hint: nat, k: nat, p: nat)
    requires |o| == |n| == SLOTS && hint < SLOTS && k < SLOTS && p < |o[At(hint, k)]| && Reclaimed(o, n, hint, k, p)
    ensures o[At(hint, k)][p].used ==> AllMarked(o)
    ensures Without(o, n, At(hint, k), p)
  {
    var h := At(hint, k);
    forall i | 0 <= i < SLOTS && i != h ensures Alike(o[i], n[i]) {
      assert n[h := o[h]][i] == n[i];
    }
  }

  /** Slot g is passed on the way from hint up to h, around the end of the table if h is below hint. */
  predicate OnTheWay(hint: nat, g: nat, h: nat) {
    (hint <= h && hint <= g < h) || (h < hint && (hint <= g < SLOTS || g < h))
  }

  /** Node p of slot h is the one to take: the first node at or after hint, going up, that is unmarked, or
      the first node at all if every one is marked. */
  ghost predicate NextVictim(o: seq<seq<Node>>, hint: nat, h: nat, p: nat) {
    && |o| == SLOTS && hint < SLOTS && h < SLOTS && p < |o[h]|
    && (!AllMarked(o) ==> !o[h][p].used && Marked(o[h], p))
    && (!AllMarked(o) ==> forall g :: 0 <= g < SLOTS && OnTheWay(hint, g, h) ==> Marked(o[g], |o[g]|))
    && (AllMarked(o) ==> p == 0 && forall g :: 0 <= g < SLOTS && OnTheWay(hint, g, h) ==> o[g] == [])
  }

  lemma VictimIsNext(o: seq<seq<Node>>, n: seq<seq<Node>>, hint: nat, k: nat, p: nat)
    requires |o| == |n| == SLOTS && hint < SLOTS && k < SLOTS && p < |o[At(hint, k)]| && Reclaimed(o, n, hint, k, p)
    ensures NextVictim(o, hint, At(hint, k), p)
  {
    var h := At(hint, k);
    forall g | 0 <= g < SLOTS && OnTheWay(hint, g, h)
      ensures !AllMarked(o) ==> Marked(o[g], |o[g]|)
      ensures AllMarked(o) ==> o[g] == []
    {
      assert Turn(hint, g) < k && At(hint, Turn(hint, g)) == g;
    }
  }
}
