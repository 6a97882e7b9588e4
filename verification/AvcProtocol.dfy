/** The access vector cache and its security server as a protocol: decisions travel to the cache
    with a sequence number and may be delayed at will; notifications arrive in order. */
module AvcProtocol {
  import opened Common
  import opened AccessVectors

  type Policy = (Key, Which) -> Vec

  type Cache = Key -> Option<Entry>

  /** A decision on its way to the cache. */
  datatype Reply = Reply(key: Key, entry: Entry, seqno: nat)

  /** policies are the policies so far, the last one in force; issued are the notifications so far,
      the i-th with sequence number i + 1; delivered of them have reached the cache, so that
      delivered is also the cache's latest_notif. */
  datatype State = State(policies: seq<Policy>, issued: seq<Notification>, delivered: nat, replies: set<Reply>,
                         cache: Cache)

  datatype Act =
    | Issue(n: Notification)
    | Decide(r: Reply)
    | Insert(r: Reply)
    | Deliver
    | Evict

  /** c' holds what c holds, perhaps less. */
  ghost predicate Evicted(c: Cache, c': Cache) {
    forall k :: c'(k) == c(k) || c'(k).None?
  }

  /** What avc_insert makes of the cache when it accepts a decision: other entries may go. */
  ghost predicate Inserted(c: Cache, c': Cache, key: Key, entry: Entry) {
    c'(key) == Some(entry) && forall k :: k != key ==> c'(k) == c(k) || c'(k).None?
  }

  /** What a notification makes of the cache. */
  ghost predicate Delivered(c: Cache, c': Cache, n: Notification) {
    forall k ::
      && (n.Reset? || c(k).None? ==> c'(k).None?)
      && (n.Change? && c(k).Some? && Covers(n, k) ==> c'(k) == Some(Update(n.code, c(k).value, n.perms)))
      && (n.Change? && c(k).Some? && !Covers(n, k) ==> c'(k) == c(k))
  }

  /** The policy after a notification: a change does to it what it says, a reset leaves it open. */
  ghost predicate Follows(p: Policy, p': Policy, n: Notification) {
    n.Change? ==> forall k, w :: Proper(k) ==> p'(k, w) == Apply(n, k, w, p(k, w))
  }

  /** On the bits that are decided the vectors agree with the policy. */
  ghost predicate Agrees(p: Policy, k: Key, e: Entry) {
    forall w :: Get(e, w) * e.decided == p(k, w) * e.decided
  }

  ghost predicate Next(s: State, a: Act, t: State) {
    match a
    case Issue(n) =>
      && |t.policies| == |s.policies| + 1 && t.policies[..|s.policies|] == s.policies && |s.policies| > 0
      && Follows(s.policies[|s.policies| - 1], t.policies[|s.policies|], n)
      && t == s.(policies := t.policies, issued := s.issued + [n])
    case Decide(r) =>
      && |s.policies| > 0 && r.seqno == |s.issued| && Proper(r.key)
      && Agrees(s.policies[|s.policies| - 1], r.key, r.entry)
      && t == s.(replies := s.replies + {r})
    case Insert(r) =>
      && r in s.replies && s.cache(r.key).None?
      && t == s.(replies := t.replies, cache := t.cache) && t.replies <= s.replies
      && (r.seqno < s.delivered ==> t.cache == s.cache)
      && (r.seqno >= s.delivered ==> Inserted(s.cache, t.cache, r.key, r.entry))
    case Deliver =>
      && s.delivered < |s.issued|
      && Delivered(s.cache, t.cache, s.issued[s.delivered])
      && t == s.(delivered := s.delivered + 1, cache := t.cache)
    case Evict => t == s.(cache := t.cache) && Evicted(s.cache, t.cache)
  }

  /** Once the notifications ns have been applied, the entry agrees with the policy. */
  ghost predicate WillAgree(p: Policy, ns: seq<Notification>, k: Key, e: Entry) {
    NoReset(ns) ==> forall w :: Fold(ns, k, w, Get(e, w)) * e.decided == p(k, w) * e.decided
  }

  ghost predicate History(s: State) {
    && |s.policies| == |s.issued| + 1 && s.delivered <= |s.issued|
    && (forall i: nat {:trigger s.issued[i]} :: i < |s.issued| ==>
          Follows(s.policies[i], s.policies[i + 1], s.issued[i]))
  }

  ghost predicate TrueReply(s: State, r: Reply) {
    Proper(r.key) && r.seqno < |s.policies| && Agrees(s.policies[r.seqno], r.key, r.entry)
  }

  ghost predicate Inv(s: State) {
    && History(s)
    && (forall r :: r in s.replies ==> TrueReply(s, r))
    && (forall k :: s.cache(k).Some? ==>
          Proper(k) && WillAgree(s.policies[|s.issued|], s.issued[s.delivered..], k, s.cache(k).value))
  }

  ghost predicate Init(s: State) {
    |s.policies| == 1 && s.issued == [] && s.delivered == 0 && s.replies == {} && forall k :: s.cache(k).None?
  }

  /** From policy i to policy j the changes issued in between were made. */
  lemma {:induction false} PolicyIsFold(s: State, i: nat, j: nat, k: Key, w: Which)
    requires History(s) && i <= j <= |s.issued| && NoReset(s.issued[i..j]) && Proper(k)
    ensures s.policies[j](k, w) == Fold(s.issued[i..j], k, w, s.policies[i](k, w))
    decreases j - i
  {
    if i < j {
      var ns, n := s.issued[i..j - 1], s.issued[j - 1];
      assert s.issued[i..j] == ns + [n];
      Parts(s.issued[i..j], ns, [n]);
      assert [n][0].Change?;
      PolicyIsFold(s, i, j - 1, k, w);
      FoldConcat(ns, [n], k, w, s.policies[i](k, w));
      assert Follows(s.policies[j - 1], s.policies[j], n);
    }
  }

  /** A decision that is at least as new as the last notification is right in the end, although
      notifications it already accounts for are still to be applied to it. */
  lemma NewReplyWillAgree(s: State, r: Reply)
    requires History(s) && TrueReply(s, r) && r.seqno >= s.delivered
    ensures WillAgree(s.policies[|s.issued|], s.issued[s.delivered..], r.key, r.entry)
  {
    var d, n, sure := s.delivered, |s.issued|, r.entry.decided;
    if NoReset(s.issued[d..]) {
      var known, later := s.issued[d..r.seqno], s.issued[r.seqno..n];
      assert s.issued[d..] == known + later == s.issued[d..n];
      assert NoReset(known) && NoReset(later) by { Parts(s.issued[d..], known, later); }
      forall w
        ensures Fold(s.issued[d..], r.key, w, Get(r.entry, w)) * sure == s.policies[n](r.key, w) * sure
      {
        var x := s.policies[r.seqno](r.key, w);
        PolicyIsFold(s, d, r.seqno, r.key, w);
        FoldTwice(known, r.key, w, s.policies[d](r.key, w));
        FoldConcat(known, later, r.key, w, x);
        PolicyIsFold(s, r.seqno, n, r.key, w);
        FoldAgrees(s.issued[d..], r.key, w, Get(r.entry, w), x, r.entry.decided);
      }
    }
  }

  lemma Parts(ns: seq<Notification>, a: seq<Notification>, b: seq<Notification>)
    requires NoReset(ns) && ns == a + b
    ensures NoReset(a) && NoReset(b)
  {
    forall i | 0 <= i < |b| ensures b[i].Change? { assert ns[|a| + i] == b[i]; }
    forall i | 0 <= i < |a| ensures a[i].Change? { assert ns[i] == a[i]; }
  }

  lemma IssueWillAgree(p: Policy, p': Policy, ns: seq<Notification>, n: Notification, k: Key, e: Entry)
    requires WillAgree(p, ns, k, e) && Follows(p, p', n) && Proper(k)
    ensures WillAgree(p', ns + [n], k, e)
  {
    if NoReset(ns + [n]) {
      Parts(ns + [n], ns, [n]);
      forall w ensures Fold(ns + [n], k, w, Get(e, w)) * e.decided == p'(k, w) * e.decided {
        var x := Fold(ns, k, w, Get(e, w));
        FoldConcat(ns, [n], k, w, Get(e, w));
        FoldAgrees([n], k, w, x, p(k, w), e.decided);
      }
    }
  }

  lemma DeliverWillAgree(p: Policy, ns: seq<Notification>, k: Key, e: Entry, e': Entry)
    requires ns != [] && ns[0].Change? && WillAgree(p, ns, k, e)
    requires Covers(ns[0], k) ==> e' == Update(ns[0].code, e, ns[0].perms)
    requires !Covers(ns[0], k) ==> e' == e
    ensures WillAgree(p, ns[1..], k, e')
  {
    if NoReset(ns[1..]) {
      assert NoReset(ns) by {
        forall i | 0 <= i < |ns| ensures ns[i].Change? {
          if i > 0 { assert ns[i] == ns[1..][i - 1]; }
        }
      }
      forall w ensures Fold(ns[1..], k, w, Get(e', w)) * e'.decided == p(k, w) * e'.decided {
        if Covers(ns[0], k) { UpdateApplies(ns[0], k, e, w); }
      }
    }
  }

  lemma InvIssue(s: State, n: Notification, t: State)
    requires Inv(s) && Next(s, Issue(n), t)
    ensures Inv(t)
  {
    var m := |s.issued|;
    assert forall i :: 0 <= i <= m ==> t.policies[i] == s.policies[i];
    forall i: nat | i < |t.issued| ensures Follows(t.policies[i], t.policies[i + 1], t.issued[i]) {
      if i < m { assert Follows(s.policies[i], s.policies[i + 1], s.issued[i]); }
    }
    assert t.issued[s.delivered..] == s.issued[s.delivered..] + [n];
    forall k | s.cache(k).Some? ensures WillAgree(t.policies[m + 1], t.issued[t.delivered..], k, t.cache(k).value) {
      IssueWillAgree(s.policies[m], t.policies[m + 1], s.issued[s.delivered..], n, k, s.cache(k).value);
    }
  }

  lemma InvDeliver(s: State, t: State)
    requires Inv(s) && Next(s, Deliver, t)
    ensures Inv(t)
  {
    var ns := s.issued[s.delivered..];
    assert ns[0] == s.issued[s.delivered] && ns[1..] == t.issued[t.delivered..];
    forall k | t.cache(k).Some?
      ensures Proper(k) && WillAgree(t.policies[|t.issued|], t.issued[t.delivered..], k, t.cache(k).value)
    {
      DeliverWillAgree(s.policies[|s.issued|], ns, k, s.cache(k).value, t.cache(k).value);
    }
  }

  /** Every step keeps the invariant. */
  lemma InvNext(s: State, a: Act, t: State)
    requires Inv(s) && Next(s, a, t)
    ensures Inv(t)
  {
    match a
    case Issue(n) => InvIssue(s, n, t);
    case Decide(r) =>
    case Insert(r) => if r.seqno >= s.delivered { NewReplyWillAgree(s, r); }
    case Deliver => InvDeliver(s, t);
    case Evict =>
  }

  ghost predicate IsRun(ss: seq<State>, acts: seq<Act>) {
    && |ss| == |acts| + 1 && Init(ss[0])
    && (forall i: nat {:trigger acts[i]} :: i < |acts| ==> Next(ss[i], acts[i], ss[i + 1]))
  }

  lemma {:induction false} InvAlways(ss: seq<State>, acts: seq<Act>, i: nat)
    requires IsRun(ss, acts) && i < |ss|
    ensures Inv(ss[i])
  {
    if i > 0 {
      InvAlways(ss, acts, i - 1);
      InvNext(ss[i - 1], acts[i - 1], ss[i]);
    }
  }

  /** In every run, whenever all notifications issued so far have reached the cache, every cached
      entry agrees with the policy in force. */
  lemma Coherent(ss: seq<State>, acts: seq<Act>, i: nat, k: Key)
    requires IsRun(ss, acts) && i < |ss|
    requires ss[i].delivered == |ss[i].issued| && ss[i].cache(k).Some?
    ensures |ss[i].policies| == |ss[i].issued| + 1
    ensures Agrees(ss[i].policies[|ss[i].issued|], k, ss[i].cache(k).value)
  {
    InvAlways(ss, acts, i);
    assert ss[i].issued[ss[i].delivered..] == [];
  }

  /** Without the comparison of sequence numbers in avc_insert this fails: there is a run in which
      a decision arrives after a revocation that it does not account for, when the cache has seen
      all notifications. */
  lemma StaleReplyDisagrees(k: Key) returns (ss: seq<State>, acts: seq<Act>, r: Reply)
    requires Proper(k)
    ensures IsRun(ss, acts) && |acts| == 3
    ensures ss[3].delivered == |ss[3].issued| > r.seqno && r in ss[3].replies && r.key == k && ss[3].cache(k).None?
    ensures |ss[3].policies| == |ss[3].issued| + 1 && !Agrees(ss[3].policies[|ss[3].issued|], k, r.entry)
  {
    var p0: Policy := (key, w) => {0};
    var n := Change(Revoke, k.ssid, k.tsid, k.tclass, {0});
    var p1: Policy := (key, w) => Apply(n, key, w, {0});
    r := Reply(k, Entry({0}, {0}, {0}, {0}, {0}), 0);
    var s0 := State([p0], [], 0, {}, key => None);
    var s1 := s0.(replies := {r});
    var s2 := s1.(policies := [p0, p1], issued := [n]);
    var s3 := s2.(delivered := 1);
    ss, acts := [s0, s1, s2, s3], [Decide(r), Issue(n), Deliver];
    assert {} + {r} == {r} && [] + [n] == [n];
    assert Next(s0, Decide(r), s1);
    assert [p0, p1][..1] == [p0];
    assert Next(s1, Issue(n), s2);
    assert Next(s2, Deliver, s3);
    assert p1(k, Allowed) == {} && Get(r.entry, Allowed) * r.entry.decided == {0};
  }
}
