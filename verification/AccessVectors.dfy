/** Access decisions and the notifications that change them, as com/avc.c handles them. An access
    vector is a 32-bit word of permission bits; here it is the set of the bits that are on. */
module AccessVectors {
  type Vec = set<nat>

  const SID_WILD: bv32 := 0xFFFF_FFFF

  datatype Key = Key(ssid: bv32, tsid: bv32, tclass: bv16)

  /** The vectors of a cache entry. */
  datatype Entry = Entry(allowed: Vec, decided: Vec, auditallow: Vec, auditdeny: Vec, notify: Vec)

  /** The vectors that notifications change. */
  datatype Which = Allowed | AuditAllow | AuditDeny | Notify

  function Get(e: Entry, w: Which): Vec {
    match w
    case Allowed => e.allowed
    case AuditAllow => e.auditallow
    case AuditDeny => e.auditdeny
    case Notify => e.notify
  }

  datatype Code =
    | Grant | TryRevoke | Revoke
    | AuditAllowEnable | AuditAllowDisable
    | AuditDenyEnable | AuditDenyDisable
    | NotifyEnable | NotifyDisable

  /** avc_update_node. */
  function Update(c: Code, e: Entry, perms: Vec): Entry {
    match c
    case Grant => e.(allowed := e.allowed + perms)
    case TryRevoke => e.(allowed := e.allowed - perms)
    case Revoke => e.(allowed := e.allowed - perms)
    case AuditAllowEnable => e.(auditallow := e.auditallow + perms)
    case AuditAllowDisable => e.(auditallow := e.auditallow - perms)
    case AuditDenyEnable => e.(auditdeny := e.auditdeny + perms)
    case AuditDenyDisable => e.(auditdeny := e.auditdeny - perms)
    case NotifyEnable => e.(notify := e.notify + perms)
    case NotifyDisable => e.(notify := e.notify - perms)
  }

  function Vector(c: Code): Which {
    match c
    case Grant => Allowed case TryRevoke => Allowed case Revoke => Allowed
    case AuditAllowEnable => AuditAllow case AuditAllowDisable => AuditAllow
    case AuditDenyEnable => AuditDeny case AuditDenyDisable => AuditDeny
    case NotifyEnable => Notify case NotifyDisable => Notify
  }

  predicate Enables(c: Code) {
    c.Grant? || c.AuditAllowEnable? || c.AuditDenyEnable? || c.NotifyEnable?
  }

  /** A notification of the security server: a change of permissions, or a reset. */
  datatype Notification = Change(code: Code, ssid: bv32, tsid: bv32, tclass: bv16, perms: Vec) | Reset

  predicate Proper(k: Key) {
    k.ssid != SID_WILD && k.tsid != SID_WILD
  }

  /** The keys a change speaks of: a wildcard stands for every identifier. */
  predicate Covers(n: Notification, k: Key)
    requires n.Change?
  {
    && (n.ssid == SID_WILD || n.ssid == k.ssid)
    && (n.tsid == SID_WILD || n.tsid == k.tsid)
    && n.tclass == k.tclass
  }

  /** What a change does to vector w of key k. */
  function Apply(n: Notification, k: Key, w: Which, x: Vec): Vec
    requires n.Change?
  {
    if !Covers(n, k) || Vector(n.code) != w then x else if Enables(n.code) then x + n.perms else x - n.perms
  }

  /** avc_update_node does to each vector what the change says. */
  lemma UpdateApplies(n: Notification, k: Key, e: Entry, w: Which)
    requires n.Change? && Covers(n, k)
    ensures Get(Update(n.code, e, n.perms), w) == Apply(n, k, w, Get(e, w))
    ensures Update(n.code, e, n.perms).decided == e.decided
  {
  }

  predicate NoReset(ns: seq<Notification>) {
    forall i :: 0 <= i < |ns| ==> ns[i].Change?
  }

  function Fold(ns: seq<Notification>, k: Key, w: Which, x: Vec): Vec
    requires NoReset(ns)
  {
    if ns == [] then x else Fold(ns[1..], k, w, Apply(ns[0], k, w, x))
  }

  /** Whether a bit ends up on after a list of changes is decided by the last change of that bit,
      whatever it was before. */
  datatype Fate = Untouched | On | Off

  function FateOf(ns: seq<Notification>, k: Key, w: Which, bit: nat): Fate
    requires NoReset(ns)
  {
    if ns == [] then Untouched
    else
      var later := FateOf(ns[1..], k, w, bit);
      if !later.Untouched? then later
      else if !Covers(ns[0], k) || Vector(ns[0].code) != w || bit !in ns[0].perms then Untouched
      else if Enables(ns[0].code) then On else Off
  }

  lemma {:induction false} FoldFollowsFate(ns: seq<Notification>, k: Key, w: Which, x: Vec, bit: nat)
    requires NoReset(ns)
    ensures bit in Fold(ns, k, w, x) <==>
      FateOf(ns, k, w, bit).On? || (FateOf(ns, k, w, bit).Untouched? && bit in x)
  {
    if ns != [] { FoldFollowsFate(ns[1..], k, w, Apply(ns[0], k, w, x), bit); }
  }

  /** Changes applied a second time change nothing. */
  lemma FoldTwice(ns: seq<Notification>, k: Key, w: Which, x: Vec)
    requires NoReset(ns)
    ensures Fold(ns, k, w, Fold(ns, k, w, x)) == Fold(ns, k, w, x)
  {
    forall bit ensures bit in Fold(ns, k, w, Fold(ns, k, w, x)) <==> bit in Fold(ns, k, w, x) {
      FoldFollowsFate(ns, k, w, x, bit);
      FoldFollowsFate(ns, k, w, Fold(ns, k, w, x), bit);
    }
  }

  /** Changes keep agreement on any set of bits. */
  lemma FoldAgrees(ns: seq<Notification>, k: Key, w: Which, x: Vec, y: Vec, mask: Vec)
    requires NoReset(ns) && x * mask == y * mask
    ensures Fold(ns, k, w, x) * mask == Fold(ns, k, w, y) * mask
  {
    forall bit | bit in mask ensures bit in Fold(ns, k, w, x) <==> bit in Fold(ns, k, w, y) {
      FoldFollowsFate(ns, k, w, x, bit);
      FoldFollowsFate(ns, k, w, y, bit);
      assert bit in x <==> bit in x * mask;
      assert bit in y <==> bit in y * mask;
    }
  }

  lemma {:induction false} FoldConcat(ns: seq<Notification>, ms: seq<Notification>, k: Key, w: Which, x: Vec)
    requires NoReset(ns) && NoReset(ms)
    ensures NoReset(ns + ms) && Fold(ns + ms, k, w, x) == Fold(ms, k, w, Fold(ns, k, w, x))
  {
    if ns == [] {
      assert ns + ms == ms;
    } else {
      assert (ns + ms)[1..] == ns[1..] + ms;
      FoldConcat(ns[1..], ms, k, w, Apply(ns[0], k, w, x));
    }
  }
}
