/** The cache object together with a security server and the traffic between them. The service carries
    its history, which is a run of the protocol: every sequence of events adds to it the acts of these
    events, so that the cache agrees with the server whenever it has been told of all changes. */
module AvcService {
  import opened AccessVectors
  import opened AvcChains
  import opened AvcProtocol
  import opened AvcCache

  datatype Event =
    | Alter(n: Notification)
    | Load(p: Policy)
    | Ask(key: Key, decided: Vec)
    | Arrive(i: nat)
    | Tell

  /** The decision of the server on a request. */
  function Decision(p: Policy, seqno: nat, key: Key, decided: Vec): (r: Reply)
    ensures r.key == key && r.seqno == seqno && r.entry.decided == decided
    ensures forall w :: Get(r.entry, w) == p(key, w)
  {
    Reply(key, Entry(p(key, Allowed), decided, p(key, AuditAllow), p(key, AuditDeny), p(key, Notify)), seqno)
  }

  /** The decisions sent off so far, in order. */
  function Sent(acts: seq<Act>): seq<Reply> {
    if acts == [] then []
    else
      var last := acts[|acts| - 1];
      if last.Decide? then Sent(acts[..|acts| - 1]) + [last.r] else Sent(acts[..|acts| - 1])
  }

  /** The acts of the protocol that make up an event in state s, when rs are the decisions sent off. A
      decision that arrives for a cached key is dropped. */
  ghost function ActsOf(e: Event, s: State, rs: seq<Reply>): seq<Act>
    requires |s.policies| > 0
  {
    match e
    case Alter(n) => if n.Change? then [Issue(n)] else []
    case Load(p) => [Issue(Reset)]
    case Ask(key, decided) =>
      if Proper(key) then [Decide(Decision(s.policies[|s.policies| - 1], |s.issued|, key, decided))] else []
    case Arrive(j) => if j < |rs| && s.cache(rs[j].key).None? then [Insert(rs[j])] else []
    case Tell => if s.delivered < |s.issued| then [Deliver] else []
  }

  /** A policy that is loaded is the one in force afterwards. */
  ghost predicate Loads(e: Event, t: State) {
    e.Load? ==> |t.policies| > 0 && t.policies[|t.policies| - 1] == e.p
  }

  /** Event e accounts for the acts from place i to place j of a history. */
  ghost predicate Enacts(e: Event, states: seq<State>, acts: seq<Act>, i: nat, j: nat) {
    && i <= j <= |acts| < |states| && |states[i].policies| > 0
    && acts[i..j] == ActsOf(e, states[i], Sent(acts[..i])) && Loads(e, states[j])
  }

  /** The places at[0], at[1], ... divide the history among the events. */
  ghost predicate Divides(at: seq<nat>, events: seq<Event>, states: seq<State>, acts: seq<Act>) {
    && |at| == |events| + 1
    && forall i: nat {:trigger events[i]} :: i < |events| ==> Enacts(events[i], states, acts, at[i], at[i + 1])
  }

  /** The history was extended by the acts of the events. */
  ghost predicate Extends(ss0: seq<State>, acts0: seq<Act>, ss: seq<State>, acts: seq<Act>, at: seq<nat>,
                          events: seq<Event>) {
    && ss0 <= ss && acts0 <= acts
    && Divides(at, events, ss, acts) && at[0] == |acts0| && at[|events|] == |acts|
  }

  class Service {
    const avc: Avc
    var policy: Policy
    var issued: seq<Notification>
    var delivered: nat
    var replies: seq<Reply>
    ghost var states: seq<State>
    ghost var acts: seq<Act>

    /** The object is in the last state of its history. */
    ghost predicate Matches(s: State)
      reads this, avc
    {
      && |s.policies| == |s.issued| + 1 && s.policies[|s.issued|] == policy && |avc.slots| == SLOTS
      && s.issued == issued && s.delivered == delivered && avc.latestNotif == delivered
      && (forall k :: s.cache(k) == Look(avc.slots, k))
      && (forall r :: r in replies ==> r in s.replies)
    }

    ghost predicate Valid()
      reads this, avc
    {
      && avc.Valid() && avc.nodes > 0 && Unique(avc.slots)
      && IsRun(states, acts) && Matches(states[|acts|]) && replies == Sent(acts)
    }

    constructor (nodes: nat, policy: Policy)
      requires nodes > 0
      ensures Valid() && fresh(avc) && acts == [] && issued == [] && this.policy == policy
    {
      avc := new Avc(nodes);
      this.policy, issued, delivered, replies := policy, [], 0, [];
      acts := [];
      new;
      states := [State([policy], [], 0, {}, CacheOf(avc.slots))];
      EmptyUnique(avc.slots);
      forall k ensures Look(avc.slots, k).None? {
      }
    }

    /** The protocol takes a step. */
    ghost method Record(a: Act, t: State)
      requires IsRun(states, acts) && Next(states[|acts|], a, t)
      modifies this`states, this`acts
      ensures IsRun(states, acts) && states == old(states) + [t] && acts == old(acts) + [a] && states[|acts|] == t
      ensures Sent(acts) == if a.Decide? then Sent(old(acts)) + [a.r] else Sent(old(acts))
    {
      RunGrows(states, acts, a, t);
      states, acts := states + [t], acts + [a];
      assert acts[..|acts| - 1] == old(acts);
    }

    /** The server changes its policy and issues a notification. */
    method Announce(n: Notification, p: Policy)
      requires Valid() && Follows(policy, p, n)
      modifies this`policy, this`issued, this`states, this`acts
      ensures Valid() && issued == old(issued) + [n] && policy == p && avc.slots == old(avc.slots)
      ensures acts == old(acts) + [Issue(n)] && |states| == |old(states)| + 1 && old(states) <= states
    {
      ghost var s := states[|acts|];
      ghost var t := s.(policies := s.policies + [p], issued := s.issued + [n]);
      assert t.policies[..|s.policies|] == s.policies;
      Record(Issue(n), t);
      policy, issued := p, issued + [n];
    }

    /** The server decides on a request and sends its decision off. */
    method Decides(key: Key, decided: Vec)
      requires Valid() && Proper(key)
      modifies this`replies, this`states, this`acts
      ensures Valid() && replies == old(replies) + [Decision(policy, |issued|, key, decided)]
      ensures acts == old(acts) + [Decide(Decision(policy, |issued|, key, decided))]
      ensures |states| == |old(states)| + 1 && old(states) <= states
    {
      var r := Decision(policy, |issued|, key, decided);
      ghost var s := states[|acts|];
      assert forall w :: Get(r.entry, w) == policy(key, w);
      Record(Decide(r), s.(replies := s.replies + {r}));
      replies := replies + [r];
    }

    /** A decision reaches the cache. It is cached exactly when its key is not cached yet and it is not
        older than the latest notification; otherwise what a lookup finds stays the same. */
    method Receive(r: Reply) returns (cached: bool)
      requires Valid() && r in replies
      modifies this`states, this`acts, avc
      ensures Valid() && (cached <==> Look(old(avc.slots), r.key).None? && r.seqno >= delivered)
      ensures cached ==> Inserted(CacheOf(old(avc.slots)), CacheOf(avc.slots), r.key, r.entry)
      ensures !cached ==> forall k :: Look(avc.slots, k) == Look(old(avc.slots), k)
      ensures Look(old(avc.slots), r.key).None? ==> acts == old(acts) + [Insert(r)] && |states| == |old(states)| + 1
      ensures Look(old(avc.slots), r.key).Some? ==> acts == old(acts) && states == old(states)
      ensures old(states) <= states
    {
      ghost var o, s := avc.slots, states[|acts|];
      cached := false;
      var j := avc.Search(r.key);
      MarksLook(o, avc.slots);
      if j == |avc.slots[Hash(r.key)]| {
        ghost var m := avc.slots;
        var rc, taken, mid := avc.Insert(r.key, r.entry, r.seqno);
        if rc.Ok? {
          cached := true;
          CachesMatch(s.cache, m, avc.slots, r.key, r.entry);
          CachesMatch(CacheOf(o), m, avc.slots, r.key, r.entry);
          Record(Insert(r), s.(cache := CacheOf(avc.slots)));
        } else {
          Record(Insert(r), s);
        }
      }
    }

    /** The next notification reaches the cache. */
    method Notified()
      requires Valid() && delivered < |issued|
      modifies this`delivered, this`states, this`acts, avc
      ensures Valid() && delivered == old(delivered) + 1
      ensures Delivered(CacheOf(old(avc.slots)), CacheOf(avc.slots), issued[old(delivered)])
      ensures acts == old(acts) + [Deliver] && |states| == |old(states)| + 1 && old(states) <= states
    {
      var n := issued[delivered];
      ghost var o, s := avc.slots, states[|acts|];
      InvAlways(states, acts, |acts|);
      if n.Reset? {
        avc.Flush(delivered + 1);
        EmptyUnique(avc.slots);
      } else {
        assert n.perms - {} == n.perms;
        avc.Control(n, delivered + 1, {});
        SameKeysUnique(o, avc.slots);
      }
      delivered := delivered + 1;
      DeliveryMatches(s.cache, o, avc.slots, n);
      Record(Deliver, s.(delivered := delivered, cache := CacheOf(avc.slots)));
    }

    /** One event adds its acts to the history. */
    method Handle(e: Event)
      requires Valid()
      modifies this, avc
      ensures Valid() && old(states) <= states && old(acts) <= acts
      ensures Enacts(e, states, acts, |old(acts)|, |acts|)
    {
      match e {
        case Alter(n) => Altered(n);
        case Load(p) =>
          Announce(Reset, p);
          Accounts(e, old(states), old(acts), states, acts);
        case Ask(key, decided) => Asked(key, decided);
        case Arrive(j) => Arrived(j);
        case Tell => Told();
      }
    }

    method Altered(n: Notification)
      requires Valid()
      modifies this`policy, this`issued, this`states, this`acts
      ensures Valid() && old(states) <= states && old(acts) <= acts
      ensures Enacts(Alter(n), states, acts, |old(acts)|, |acts|)
    {
      if n.Change? {
        var p := policy;
        Announce(n, (k, w) => Apply(n, k, w, p(k, w)));
      }
      Accounts(Alter(n), old(states), old(acts), states, acts);
    }

    method Asked(key: Key, decided: Vec)
      requires Valid()
      modifies this`replies, this`states, this`acts
      ensures Valid() && old(states) <= states && old(acts) <= acts
      ensures Enacts(Ask(key, decided), states, acts, |old(acts)|, |acts|)
    {
      if Proper(key) {
        Decides(key, decided);
      }
      Accounts(Ask(key, decided), old(states), old(acts), states, acts);
    }

    method Arrived(j: nat)
      requires Valid()
      modifies this`states, this`acts, avc
      ensures Valid() && old(states) <= states && old(acts) <= acts
      ensures Enacts(Arrive(j), states, acts, |old(acts)|, |acts|)
    {
      if j < |replies| {
        var cached := Receive(replies[j]);
      }
      Accounts(Arrive(j), old(states), old(acts), states, acts);
    }

    method Told()
      requires Valid()
      modifies this`delivered, this`states, this`acts, avc
      ensures Valid() && old(states) <= states && old(acts) <= acts
      ensures Enacts(Tell, states, acts, |old(acts)|, |acts|)
    {
      if delivered < |issued| {
        Notified();
      }
      Accounts(Tell, old(states), old(acts), states, acts);
    }

    /** Any sequence of events adds to the history, which is a run of the protocol, the acts of these
        events in order. Once all notifications have reached the cache, whatever a lookup finds agrees
        with the policy. */
    method Serve(events: seq<Event>) returns (ghost at: seq<nat>)
      requires Valid()
      modifies this, avc
      ensures Valid() && Extends(old(states), old(acts), states, acts, at, events)
      ensures delivered == |issued| ==>
        forall k :: Look(avc.slots, k).Some? ==> Agrees(policy, k, Look(avc.slots, k).value)
    {
      at := [|acts|];
      for i := 0 to |events|
        invariant Valid() && Extends(old(states), old(acts), states, acts, at, events[..i])
      {
        ghost var ss, prior := states, acts;
        Handle(events[i]);
        ExtendsOn(old(states), old(acts), ss, prior, at, events[..i], states, acts, events[i]);
        assert events[..i + 1] == events[..i] + [events[i]];
        at := at + [|acts|];
      }
      assert events[..|events|] == events;
      AllAgree();
    }

    /** What the protocol promises of the history holds of the object. */
    lemma AllAgree()
      requires Valid()
      ensures delivered == |issued| ==>
        forall k :: Look(avc.slots, k).Some? ==> Agrees(policy, k, Look(avc.slots, k).value)
    {
      if delivered == |issued| {
        forall k | Look(avc.slots, k).Some? ensures Agrees(policy, k, Look(avc.slots, k).value) {
          Coherent(states, acts, |acts|, k);
        }
      }
    }
  }

  /** An event accounts for what it has added to the history. */
  lemma Accounts(e: Event, ss: seq<State>, acts: seq<Act>, ss': seq<State>, acts': seq<Act>)
    requires |acts| < |ss| && |acts'| < |ss'| && ss <= ss' && |ss[|acts|].policies| > 0
    requires acts' == acts + ActsOf(e, ss[|acts|], Sent(acts)) && Loads(e, ss'[|acts'|])
    ensures acts <= acts' && Enacts(e, ss', acts', |acts|, |acts'|)
  {
    assert acts'[..|acts|] == acts;
    assert acts'[|acts|..] == ActsOf(e, ss[|acts|], Sent(acts));
  }

  /** What an event accounts for does not change as the history grows. */
  lemma EnactsStill(e: Event, ss: seq<State>, acts: seq<Act>, ss': seq<State>, acts': seq<Act>, i: nat, j: nat)
    requires Enacts(e, ss, acts, i, j) && ss <= ss' && acts <= acts' && |acts'| < |ss'|
    ensures Enacts(e, ss', acts', i, j)
  {
    assert acts'[..i] == acts[..i];
    assert acts'[i..j] == acts[i..j];
  }

  lemma DividesOn(at: seq<nat>, events: seq<Event>, ss: seq<State>, acts: seq<Act>, ss': seq<State>, acts': seq<Act>,
                  e: Event)
    requires Divides(at, events, ss, acts) && at[|events|] == |acts| && ss <= ss' && acts <= acts'
    requires Enacts(e, ss', acts', |acts|, |acts'|)
    ensures Divides(at + [|acts'|], events + [e], ss', acts')
  {
    var at', events' := at + [|acts'|], events + [e];
    forall i: nat | i < |events'| ensures Enacts(events'[i], ss', acts', at'[i], at'[i + 1]) {
      if i < |events| { EnactsStill(events[i], ss, acts, ss', acts', at[i], at[i + 1]); }
    }
  }

  lemma ExtendsOn(ss0: seq<State>, acts0: seq<Act>, ss: seq<State>, acts: seq<Act>, at: seq<nat>, events: seq<Event>,
                  ss': seq<State>, acts': seq<Act>, e: Event)
    requires Extends(ss0, acts0, ss, acts, at, events) && ss <= ss' && acts <= acts'
    requires Enacts(e, ss', acts', |acts|, |acts'|)
    ensures Extends(ss0, acts0, ss', acts', at + [|acts'|], events + [e])
  {
    DividesOn(at, events, ss, acts, ss', acts', e);
  }

  lemma RunGrows(ss: seq<State>, acts: seq<Act>, a: Act, t: State)
    requires IsRun(ss, acts) && Next(ss[|acts|], a, t)
    ensures IsRun(ss + [t], acts + [a])
  {
    var ss', acts' := ss + [t], acts + [a];
    forall i: nat | i < |acts'| ensures Next(ss'[i], acts'[i], ss'[i + 1]) {
      if i < |acts| { assert Next(ss[i], acts[i], ss[i + 1]); }
    }
  }

  /** An insertion seen from a cache that finds the same. */
  lemma CachesMatch(c: Cache, m: seq<seq<Node>>, n: seq<seq<Node>>, key: Key, entry: Entry)
    requires |m| == |n| == SLOTS && Inserted(CacheOf(m), CacheOf(n), key, entry) && forall k :: c(k) == Look(m, k)
    ensures Inserted(c, CacheOf(n), key, entry)
  {
    forall k ensures k != key ==> CacheOf(n)(k) == c(k) || CacheOf(n)(k).None? {
      assert CacheOf(m)(k) == Look(m, k);
    }
  }

  lemma DeliveryMatches(c: Cache, o: seq<seq<Node>>, n: seq<seq<Node>>, note: Notification)
    requires |o| == |n| == SLOTS && Delivered(CacheOf(o), CacheOf(n), note) && forall k :: c(k) == Look(o, k)
    ensures Delivered(c, CacheOf(n), note)
  {
    forall k ensures CacheOf(o)(k) == c(k) {
    }
  }

  lemma EmptyUnique(slots: seq<seq<Node>>)
    requires |slots| == SLOTS && Total(slots) == 0
    ensures Unique(slots)
  {
    TotalZero(slots);
  }
}
