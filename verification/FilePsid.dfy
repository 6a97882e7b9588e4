/** The persistent label store of com/filepsid.c: an append-only file of contexts, an index of their
    places, a table of inodes, and what is kept of them in memory. */
module FilePsid {
  import opened Common
  import opened PsidTable

  const FILE_PSID: nat := 0
  const FS_PSID: nat := 1

  /** A record of the index file: where the context of a psid is. */
  datatype Row = Row(ofs: nat, len: nat)

  /** psidtab_search_sid: a psid other than the two reserved ones, or zero. */
  method SearchSid(slots: seq<seq<Node>>, sid: Sid) returns (psid: nat)
    requires |slots| == SLOTS
    ensures psid != 0 ==> psid > FS_PSID
    ensures psid != 0 ==> exists h, j :: 0 <= h < SLOTS && 0 <= j < |slots[h]| && slots[h][j] == Node(psid, sid)
    ensures psid == 0 ==>
      forall h, j :: 0 <= h < SLOTS && 0 <= j < |slots[h]| && slots[h][j].sid == sid ==> slots[h][j].psid <= FS_PSID
  {
    for h := 0 to SLOTS
      invariant forall g, j :: 0 <= g < h && 0 <= j < |slots[g]| && slots[g][j].sid == sid ==>
        slots[g][j].psid <= FS_PSID
    {
      for j := 0 to |slots[h]|
        invariant forall i :: 0 <= i < j && slots[h][i].sid == sid ==> slots[h][i].psid <= FS_PSID
      {
        if slots[h][j].sid == sid && slots[h][j].psid > FS_PSID {
          assert slots[h][j] == Node(slots[h][j].psid, sid);
          return slots[h][j].psid;
        }
      }
    }
    return 0;
  }

  /** The search of chpsid: any psid that has the identifier. */
  method FindSid(slots: seq<seq<Node>>, sid: Sid) returns (r: Option<nat>)
    requires |slots| == SLOTS
    ensures r.Some? ==> exists h, j :: 0 <= h < SLOTS && 0 <= j < |slots[h]| && slots[h][j] == Node(r.value, sid)
    ensures r.None? ==> forall h, j :: 0 <= h < SLOTS && 0 <= j < |slots[h]| ==> slots[h][j].sid != sid
  {
    for h := 0 to SLOTS
      invariant forall g, j :: 0 <= g < h && 0 <= j < |slots[g]| ==> slots[g][j].sid != sid
    {
      for j := 0 to |slots[h]|
        invariant forall i :: 0 <= i < j ==> slots[h][i].sid != sid
      {
        if slots[h][j].sid == sid {
          assert slots[h][j] == Node(slots[h][j].psid, sid);
          return Some(slots[h][j].psid);
        }
      }
    }
    return None;
  }

  class Store {
    /** The security server: identifiers to contexts and back. */
    const sidToContext: Sid -> Option<string>
    const contextToSid: string -> Option<Sid>
    var contexts: string
    var index: seq<Row>
    var inodes: seq<nat>
    var slots: seq<seq<Node>>
    var nextPsid: nat
    var ino2sid: map<nat, Sid>
    /** The identifier of every psid. */
    ghost var table: seq<Sid>
    /** The identifiers that inodes were explicitly given. */
    ghost var labels: map<nat, Sid>

    /** The security server gives an identifier back for its context; zero is no identifier. */
    ghost predicate Inverse() {
      && sidToContext(0).None?
      && forall s: Sid :: sidToContext(s).Some? ==> contextToSid(sidToContext(s).value) == Some(s)
    }

    /** The row says where in the contexts file the context of sid is. */
    ghost predicate RowHolds(contexts: string, row: Row, sid: Sid) {
      row.ofs + row.len <= |contexts| && sidToContext(sid) == Some(contexts[row.ofs..row.ofs + row.len])
    }

    /** What is on disk stands for the table. */
    ghost predicate OnDisk()
      reads this`contexts, this`index, this`inodes, this`table
    {
      && |index| == |table|
      && (forall p :: 0 <= p < |table| ==> RowHolds(contexts, index[p], table[p]))
      && (forall i :: 0 <= i < |inodes| ==> inodes[i] < |table|)
    }

    /** An inode that was given an identifier still has it, on disk and in the cache. */
    ghost predicate LabelsKept()
      reads this`inodes, this`table, this`labels, this`ino2sid
    {
      forall i :: i in labels ==>
        && i < |inodes| && FS_PSID < inodes[i] < |table| && table[inodes[i]] == labels[i]
        && (i in ino2sid ==> ino2sid[i] == labels[i])
    }

    /** Every cached answer is the one that the disk gives. */
    ghost predicate CacheRight()
      reads this`inodes, this`table, this`ino2sid
    {
      forall i :: i in ino2sid ==> i < |inodes| && inodes[i] < |table| && ino2sid[i] == table[inodes[i]]
    }

    /** No cached inode has a reserved psid that would get another identifier. */
    ghost predicate CacheSpared(fsSid: Sid, fileSid: Sid)
      requires |table| >= 2
      reads this`inodes, this`table, this`ino2sid
    {
      forall i :: i in ino2sid && i < |inodes| ==>
        && (inodes[i] == FS_PSID && fsSid != 0 ==> fsSid == table[FS_PSID])
        && (inodes[i] == FILE_PSID && fileSid != 0 ==> fileSid == table[FILE_PSID])
    }

    ghost predicate Base()
      reads this
    {
      Inverse() && OnDisk() && slots == Build(table) && nextPsid == |table| && LabelsKept()
    }

    ghost predicate Valid()
      reads this
    {
      Base() && |table| >= 2
    }

    constructor (sidToContext: Sid -> Option<string>, contextToSid: string -> Option<Sid>)
      requires sidToContext(0).None?
      requires forall s: Sid :: sidToContext(s).Some? ==> contextToSid(sidToContext(s).value) == Some(s)
      ensures Base() && table == [] && labels == map[]
    {
      this.sidToContext, this.contextToSid := sidToContext, contextToSid;
      contexts, index, inodes := "", [], [];
      slots, nextPsid, ino2sid := Build([]), 0, map[];
      table, labels := [], map[];
    }

    /** Appends a context to the contexts file. */
    method AppendContext(sid: Sid) returns (ok: bool, row: Row)
      modifies this`contexts
      ensures ok <==> sidToContext(sid).Some?
      ensures ok ==> RowHolds(contexts, row, sid)
      ensures old(contexts) <= contexts
      ensures !ok ==> contexts == old(contexts)
    {
      row := Row(|contexts|, 0);
      match sidToContext(sid) {
        case None => ok := false;
        case Some(context) =>
          ok, row := true, Row(|contexts|, |context|);
          contexts := contexts + context;
          assert contexts[row.ofs..row.ofs + row.len] == context;
      }
    }

    /** A longer contexts file holds what it held. */
    lemma RowStays(c: string, c': string, row: Row, sid: Sid)
      requires c <= c' && RowHolds(c, row, sid)
      ensures RowHolds(c', row, sid)
    {
      assert c'[row.ofs..row.ofs + row.len] == c[row.ofs..row.ofs + row.len];
    }

    /** newpsid: the next psid gets the identifier, on disk and in memory. */
    method NewPsid(sid: Sid) returns (ok: bool, psid: nat)
      requires Base()
      modifies this`contexts, this`index, this`slots, this`nextPsid, this`table
      ensures Base()
      ensures ok <==> sidToContext(sid).Some?
      ensures ok ==> psid == |old(table)| && table == old(table) + [sid]
      ensures !ok ==> table == old(table)
    {
      var row;
      psid := nextPsid;
      ok, row := AppendContext(sid);
      if ok {
        forall p | 0 <= p < |table| ensures RowHolds(contexts, index[p], table[p]) {
          RowStays(old(contexts), contexts, index[p], table[p]);
        }
        ghost var t := table + [sid];
        assert t[..psid] == table;
        slots := Push(slots, psid, sid);
        assert slots == Build(t);
        nextPsid, index, table := nextPsid + 1, index + [row], t;
      }
    }

    /** The first part of oskit_filepsid_create on an empty store. */
    method Init(fsSid: Sid, fileSid: Sid) returns (ok: bool)
      requires Base() && table == [] && labels == map[]
      modifies this`contexts, this`index, this`slots, this`nextPsid, this`table
      ensures ok <==> sidToContext(fileSid).Some? && sidToContext(fsSid).Some?
      ensures ok ==> Valid() && table == [fileSid, fsSid]
    {
      var psid;
      ok, psid := NewPsid(fileSid);
      if ok {
        ok, psid := NewPsid(fsSid);
      }
    }

    /** The psid the store uses for an identifier that is set on a file: one is made only for an
        identifier that has none but the reserved ones. */
    method PsidFor(sid: Sid) returns (ok: bool, psid: nat)
      requires Valid()
      modifies this`contexts, this`index, this`slots, this`nextPsid, this`table
      ensures Valid() && old(table) <= table
      ensures ok <==> sidToContext(sid).Some?
      ensures ok ==> FS_PSID < psid < |table| && table[psid] == sid
      ensures !ok ==> table == old(table)
      ensures forall p :: FS_PSID < p < |old(table)| && old(table)[p] == sid ==> table == old(table)
    {
      ok := true;
      psid := SearchSid(slots, sid);
      if psid == 0 {
        forall p: nat | p < |table| && table[p] == sid ensures p <= FS_PSID {
          var j := BuildPlace(table, p);
        }
        ok, psid := NewPsid(sid);
      } else {
        ghost var h, j :| 0 <= h < SLOTS && 0 <= j < |slots[h]| && slots[h][j] == Node(psid, sid);
        BuildHolds(table, h, j);
        assert RowHolds(contexts, index[psid], table[psid]);
      }
    }

    /** fpsid_set. Only an identifier without a context is refused. */
    method Set(ino: nat, sid: Sid) returns (ok: bool)
      requires Valid()
      modifies this
      ensures Valid()
      ensures ok <==> sidToContext(sid).Some?
      ensures ok ==> labels == old(labels)[ino := sid] && ino2sid == old(ino2sid)[ino := sid]
      ensures ok ==> ino < |inodes| && |inodes| >= |old(inodes)|
      ensures ok ==> forall i :: 0 <= i < |old(inodes)| && i != ino ==> inodes[i] == old(inodes)[i]
      ensures old(table) <= table
      ensures !ok ==> labels == old(labels) && inodes == old(inodes) && ino2sid == old(ino2sid)
      ensures old(CacheRight()) ==> CacheRight()
    {
      var psid;
      ok, psid := PsidFor(sid);
      if ok {
        WriteInode(ino, psid);
        ino2sid := ino2sid[ino := sid];
        labels := labels[ino := sid];
        if old(CacheRight()) {
          forall i | i in ino2sid ensures i < |inodes| && inodes[i] < |table| && ino2sid[i] == table[inodes[i]] {
            if i != ino { assert i in old(ino2sid) && inodes[i] == old(inodes)[i]; }
          }
        }
      }
    }

    /** Writes a word of the inodes file; a write past its end fills the gap with zeros. */
    method WriteInode(ino: nat, psid: nat)
      modifies this`inodes
      ensures ino < |inodes| && inodes[ino] == psid && |inodes| >= |old(inodes)|
      ensures forall i :: 0 <= i < |old(inodes)| && i != ino ==> inodes[i] == old(inodes)[i]
      ensures forall i :: |old(inodes)| <= i < |inodes| && i != ino ==> inodes[i] == 0
    {
      if ino >= |inodes| {
        inodes := inodes + seq(ino + 1 - |inodes|, i => 0);
      }
      inodes := inodes[ino := psid];
    }

    /** fpsid_get: the cached identifier, or else that of the psid on disk. An inode past the end of
        the inodes file is an error. Every psid on disk is defined. */
    method Get(ino: nat) returns (r: Option<Sid>)
      requires Valid()
      modifies this`ino2sid
      ensures Valid()
      ensures ino in labels ==> r == Some(labels[ino])
      ensures ino in old(ino2sid) ==> r == Some(old(ino2sid)[ino]) && ino2sid == old(ino2sid)
      ensures ino !in old(ino2sid) && ino < |inodes| ==> r == Some(table[inodes[ino]])
      ensures ino !in old(ino2sid) && ino < |inodes| ==> ino2sid == old(ino2sid)[ino := table[inodes[ino]]]
      ensures ino !in old(ino2sid) && ino >= |inodes| ==> r.None? && ino2sid == old(ino2sid)
      ensures old(CacheRight()) ==> CacheRight()
    {
      if ino in ino2sid {
        return Some(ino2sid[ino]);
      }
      if ino >= |inodes| {
        return None;
      }
      var psid := inodes[ino];
      BuildSearch(table, psid);
      var sid := SearchIn(slots[psid % SLOTS], psid);
      assert RowHolds(contexts, index[psid], table[psid]);
      assert sid != 0;
      ino2sid := ino2sid[ino := sid];
      r := Some(sid);
    }

    /** The first part of chpsid: the index record of a psid that has the identifier already, or
        that of a newly written context. */
    method RowFor(sid: Sid) returns (ok: bool, row: Row)
      requires Valid()
      modifies this`contexts
      ensures Valid()
      ensures ok <==> sidToContext(sid).Some?
      ensures ok ==> RowHolds(contexts, row, sid)
    {
      var clone := FindSid(slots, sid);
      if clone.Some? {
        ghost var h, j :| 0 <= h < SLOTS && 0 <= j < |slots[h]| && slots[h][j] == Node(clone.value, sid);
        BuildHolds(table, h, j);
        assert RowHolds(contexts, index[clone.value], table[clone.value]);
        return true, index[clone.value];
      }
      ok, row := AppendContext(sid);
      forall p | 0 <= p < |table| ensures RowHolds(contexts, index[p], table[p]) {
        RowStays(old(contexts), contexts, index[p], table[p]);
      }
    }

    /** chpsid, for one of the two reserved psids. */
    method ChangePsid(psid: nat, sid: Sid) returns (ok: bool)
      requires Valid() && psid <= FS_PSID
      modifies this`contexts, this`index, this`slots, this`table
      ensures Valid()
      ensures ok <==> sidToContext(sid).Some?
      ensures ok ==> table == old(table)[psid := sid]
      ensures !ok ==> table == old(table)
    {
      var row;
      ok, row := RowFor(sid);
      if ok {
        BuildChange(table, psid, sid);
        ghost var t := table[psid := sid];
        slots := slots[psid % SLOTS := ChangeIn(slots[psid % SLOTS], psid, sid)];
        assert slots == Build(t);
        index, table := index[psid := row], t;
      }
    }

    /** fpsid_setfs: changes the identifiers of the file system and of files without a label. What
        inodes were given stays, and so does every other psid. The cache is not told: its answers
        stay right exactly when no cached inode has a reserved psid that changes. */
    method SetFs(fsSid: Sid, fileSid: Sid) returns (ok: bool)
      requires Valid()
      modifies this`contexts, this`index, this`slots, this`table
      ensures Valid()
      ensures |table| == |old(table)| && forall p :: FS_PSID < p < |table| ==> table[p] == old(table)[p]
      ensures ok ==> table[FS_PSID] == (if fsSid != 0 then fsSid else old(table)[FS_PSID])
      ensures ok ==> table[FILE_PSID] == (if fileSid != 0 then fileSid else old(table)[FILE_PSID])
      ensures ok <==> (fsSid != 0 ==> sidToContext(fsSid).Some?) && (fileSid != 0 ==> sidToContext(fileSid).Some?)
      ensures ok && old(CacheRight()) ==> (CacheRight() <==> old(CacheSpared(fsSid, fileSid)))
    {
      ok := true;
      if fsSid != 0 {
        ok := ChangePsid(FS_PSID, fsSid);
      }
      if fileSid != 0 && ok {
        ok := ChangePsid(FILE_PSID, fileSid);
      }
    }

    /** oskit_filepsid_create on an existing store: reads the index and the contexts back. What it
        builds is exactly the table the last user of the store had in memory; the cache is empty. */
    method Reopen() returns (fsSid: Sid)
      requires Valid()
      modifies this`slots, this`nextPsid, this`ino2sid
      ensures Valid()
      ensures slots == old(slots) && nextPsid == old(nextPsid) && ino2sid == map[] && CacheRight()
      ensures fsSid == table[FS_PSID] != 0
    {
      ino2sid := map[];
      slots, nextPsid := ReadBack();
      BuildSearch(table, FS_PSID);
      assert RowHolds(contexts, index[FS_PSID], table[FS_PSID]);
      fsSid := SearchIn(slots[FS_PSID % SLOTS], FS_PSID);
    }

    /** The loop of oskit_filepsid_create over the index file. A context that the security server
        does not know is skipped. */
    method ReadBack() returns (read: seq<seq<Node>>, next: nat)
      requires Inverse() && OnDisk()
      ensures read == Build(table) && next == |table|
    {
      read, next := Build([]), 0;
      while next < |index|
        invariant next <= |index| && read == Build(table[..next])
      {
        var row := index[next];
        assert RowHolds(contexts, row, table[next]);
        var sid := contextToSid(contexts[row.ofs..row.ofs + row.len]);
        if sid.Some? {
          BuildNext(table, next);
          read := Push(read, next, sid.value);
        }
        next := next + 1;
      }
      assert table[..next] == table;
    }
  }

  datatype Op = DoSet(ino: nat, sid: Sid) | DoGet(ino: nat) | DoSetFs(fsSid: Sid, fileSid: Sid) | DoReopen

  /** The identifiers that inodes were given last. */
  ghost function LastSet(labels: map<nat, Sid>, ops: seq<Op>, known: Sid -> Option<string>): map<nat, Sid> {
    if ops == [] then labels
    else
      var before, op := LastSet(labels, ops[..|ops| - 1], known), ops[|ops| - 1];
      if op.DoSet? && known(op.sid).Some? then before[op.ino := op.sid] else before
  }

  /** Any sequence of operations, reopenings included, leaves every inode with the identifier it was
      given last, on disk and in the cache, and a table that a reopening would rebuild. */
  method Serve(store: Store, ops: seq<Op>)
    requires store.Valid()
    modifies store
    ensures store.Valid()
    ensures store.labels == LastSet(old(store.labels), ops, store.sidToContext)
  {
    assert ops[..|ops|] == ops;
    for n := 0 to |ops|
      invariant store.Valid() && store.labels == LastSet(old(store.labels), ops[..n], store.sidToContext)
    {
      assert ops[..n + 1][..n] == ops[..n];
      match ops[n] {
        case DoSet(ino, sid) => var ok := store.Set(ino, sid);
        case DoGet(ino) => var r := store.Get(ino);
        case DoSetFs(fsSid, fileSid) => var ok := store.SetFs(fsSid, fileSid);
        case DoReopen => var fsSid := store.Reopen();
      }
    }
  }

  /** The cache is not told of a new identifier for files without a label: such an inode, once
      looked up, keeps answering with the old one until the store is reopened. */
  method RelabelMissesCache(store: Store, ino: nat, fileSid: Sid)
    returns (before: Option<Sid>, cached: Option<Sid>, reopened: Option<Sid>)
    requires store.Valid() && ino < |store.inodes| && store.inodes[ino] == FILE_PSID && ino !in store.ino2sid
    requires store.sidToContext(fileSid).Some? && fileSid != store.table[FILE_PSID]
    modifies store
    ensures store.Valid() && cached == before == Some(old(store.table)[FILE_PSID])
    ensures reopened == Some(fileSid) != cached
  {
    before := store.Get(ino);
    var ok := store.SetFs(0, fileSid);
    cached := store.Get(ino);
    var fsSid := store.Reopen();
    reopened := store.Get(ino);
  }
}
