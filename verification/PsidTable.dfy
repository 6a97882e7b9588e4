/** The in-memory table of com/filepsid.c: hash chains from persistent to current security
    identifiers, as the value that a list of identifiers builds. */
module PsidTable {
  const SLOTS: nat := 32

  type Sid = nat

  datatype Node = Node(psid: nat, sid: Sid)

  /** psidtab_insert. */
  function Push(slots: seq<seq<Node>>, psid: nat, sid: Sid): (r: seq<seq<Node>>)
    requires |slots| == SLOTS
  {
    slots[psid % SLOTS := [Node(psid, sid)] + slots[psid % SLOTS]]
  }

  /** The chains after psids 0, 1, ... were given the identifiers of the table in turn. */
  function Build(table: seq<Sid>): (slots: seq<seq<Node>>)
    ensures |slots| == SLOTS
  {
    if table == [] then seq(SLOTS, i => [])
    else Push(Build(table[..|table| - 1]), |table| - 1, table[|table| - 1])
  }

  lemma BuildNext(table: seq<Sid>, n: nat)
    requires n < |table|
    ensures Build(table[..n + 1]) == Push(Build(table[..n]), n, table[n])
  {
    assert table[..n + 1][..n] == table[..n];
  }

  /** psidtab_search_psid on a chain: zero if there is none. */
  function SearchIn(c: seq<Node>, psid: nat): Sid {
    if c == [] then 0 else if c[0].psid == psid then c[0].sid else SearchIn(c[1..], psid)
  }

  /** psidtab_change_psid on a chain. */
  function ChangeIn(c: seq<Node>, psid: nat, sid: Sid): (r: seq<Node>)
    ensures |r| == |c|
  {
    if c == [] then []
    else if c[0].psid == psid then [Node(psid, sid)] + c[1..]
    else [c[0]] + ChangeIn(c[1..], psid, sid)
  }

  /** The chains hold the table and nothing else. */
  lemma {:induction false} BuildHolds(table: seq<Sid>, h: nat, j: nat)
    requires h < SLOTS && j < |Build(table)[h]|
    ensures var n := Build(table)[h][j]; n.psid < |table| && n.psid % SLOTS == h && n.sid == table[n.psid]
  {
    var n := |table| - 1;
    if table != [] {
      var before := Build(table[..n]);
      if h != n % SLOTS {
        BuildHolds(table[..n], h, j);
      } else if j > 0 {
        assert Build(table)[h][j] == before[h][j - 1];
        BuildHolds(table[..n], h, j - 1);
      }
    }
  }

  lemma {:induction false} BuildPlace(table: seq<Sid>, p: nat) returns (j: nat)
    requires p < |table|
    ensures j < |Build(table)[p % SLOTS]| && Build(table)[p % SLOTS][j] == Node(p, table[p])
  {
    var n := |table| - 1;
    if p == n {
      j := 0;
    } else {
      j := BuildPlace(table[..n], p);
      if n % SLOTS == p % SLOTS {
        assert Build(table)[p % SLOTS][j + 1] == Build(table[..n])[p % SLOTS][j];
        j := j + 1;
      }
    }
  }

  lemma {:induction false} BuildSearch(table: seq<Sid>, p: nat)
    ensures p < |table| ==> SearchIn(Build(table)[p % SLOTS], p) == table[p]
    ensures p >= |table| ==> SearchIn(Build(table)[p % SLOTS], p) == 0
  {
    if table != [] {
      var n := |table| - 1;
      BuildSearch(table[..n], p);
      if n % SLOTS == p % SLOTS { assert Build(table)[p % SLOTS][1..] == Build(table[..n])[p % SLOTS]; }
    }
  }

  lemma {:induction false} BuildChange(table: seq<Sid>, p: nat, sid: Sid)
    requires p < |table|
    ensures Build(table[p := sid]) == Build(table)[p % SLOTS := ChangeIn(Build(table)[p % SLOTS], p, sid)]
  {
    var n, h := |table| - 1, p % SLOTS;
    var front := table[..n];
    if p == n {
      assert table[p := sid][..n] == front;
      assert Build(table)[h][1..] == Build(front)[h];
    } else {
      assert table[p := sid][..n] == front[p := sid];
      BuildChange(front, p, sid);
      if n % SLOTS == h { assert Build(table)[h][1..] == Build(front)[h]; }
    }
  }
}
