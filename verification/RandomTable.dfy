/** Where the initial table of com/random.c comes from: it is the one that seeding with 1 gives. The words
    are checked here one way around the table at a time. */
module RandomTable {
  import opened Common
  import opened Random

  /** Word i of a table and of the same table one way around: each word has been added to once, starting
      at the front pointer. */
  predicate Adds(s: seq<nat>, s': seq<nat>, i: nat)
    requires |s| == |s'| == DEG && i < DEG
  {
    s'[i] == Sum(s[i], if i < SEP then s'[DEG - SEP + i] else if i < 2 * SEP then s[i - SEP] else s'[i - SEP])
  }

  ghost predicate Around(s: seq<nat>, s': seq<nat>) {
    |s| == |s'| == DEG && forall i :: 0 <= i < DEG ==> Adds(s, s', i)
  }

  /** The same seen from the oldest word on. */
  lemma {:induction false} AroundIsRecurrence(s: seq<nat>, s': seq<nat>, k: nat)
    requires Around(s, s') && k < DEG
    ensures Rotated(s', SEP)[k] == Recurrence(Rotated(s, SEP), DEG + k)
  {
    assert Adds(s, s', if k + SEP < DEG then k + SEP else k + SEP - DEG);
    if k >= SEP { AroundIsRecurrence(s, s', k - SEP); }
  }

  /** One way around is 31 steps. */
  lemma AroundIsSteps(s: seq<nat>, s': seq<nat>)
    requires Around(s, s')
    ensures Steps(Rotated(s, SEP), DEG) == Rotated(s', SEP)
  {
    var w := Rotated(s, SEP);
    forall k | 0 <= k < DEG ensures Steps(w, DEG)[k] == Rotated(s', SEP)[k] {
      StepsFollowRecurrence(w, DEG, k);
      AroundIsRecurrence(s, s', k);
    }
  }

  lemma {:induction false} StepsAdd(w: seq<nat>, a: nat, b: nat)
    requires |w| == DEG
    ensures Steps(Steps(w, a), b) == Steps(w, a + b)
  {
    if b > 0 { StepsAdd(w, a, b - 1); }
  }

  /** n steps from one table to another. */
  ghost predicate Leads(s: seq<nat>, n: nat, s': seq<nat>) {
    |s| == |s'| == DEG && Steps(Rotated(s, SEP), n) == Rotated(s', SEP)
  }

  lemma OnceMore(s: seq<nat>, n: nat, s': seq<nat>, s'': seq<nat>)
    requires Leads(s, n, s') && Around(s', s'')
    ensures Leads(s, n + DEG, s'')
  {
    AroundIsSteps(s', s'');
    StepsAdd(Rotated(s, SEP), n, DEG);
  }

  lemma {:induction false} AroundAll(ts: seq<seq<nat>>, n: nat)
    requires n < |ts| && |ts[0]| == DEG && forall k: nat :: k < n ==> Around(ts[k], ts[k + 1])
    ensures Leads(ts[0], n * DEG, ts[n])
  {
    if n > 0 {
      AroundAll(ts, n - 1);
      OnceMore(ts[0], (n - 1) * DEG, ts[n - 1], ts[n]);
    }
  }

  /** All words of two tables. */
  lemma AllAdd(s: seq<nat>, s': seq<nat>)
    requires |s| == |s'| == DEG
    requires
      && Adds(s, s', 0) && Adds(s, s', 1) && Adds(s, s', 2) && Adds(s, s', 3) && Adds(s, s', 4) && Adds(s, s', 5)
      && Adds(s, s', 6) && Adds(s, s', 7) && Adds(s, s', 8) && Adds(s, s', 9) && Adds(s, s', 10) && Adds(s, s', 11)
      && Adds(s, s', 12) && Adds(s, s', 13) && Adds(s, s', 14) && Adds(s, s', 15) && Adds(s, s', 16) && Adds(s, s', 17)
      && Adds(s, s', 18) && Adds(s, s', 19) && Adds(s, s', 20) && Adds(s, s', 21) && Adds(s, s', 22) && Adds(s, s', 23)
      && Adds(s, s', 24) && Adds(s, s', 25) && Adds(s, s', 26) && Adds(s, s', 27) && Adds(s, s', 28) && Adds(s, s', 29)
      && Adds(s, s', 30)
    ensures Around(s, s')
  {
  }

  /** Word i of a seeded table, with the quotient of the division that gives it. */
  predicate GoesBy(s: seq<nat>, quotients: seq<nat>, i: nat)
    requires 0 < i < |s| == |quotients|
  {
    s[i - 1] <= M && 1 <= s[i] <= M && s[i] == 16807 * s[i - 1] - M * quotients[i]
  }

  lemma GoesByGoes(s: seq<nat>, quotients: seq<nat>, i: nat)
    requires 0 < i < |s| == |quotients| && GoesBy(s, quotients, i)
    ensures Goes(s, i)
  {
    var a, b, q := s[i - 1], s[i], quotients[i];
    assert ToSigned(a) == a;
    QuotientLeavesNothing(a, b, q);
  }

  lemma QuotientLeavesNothing(a: nat, b: nat, q: nat)
    requires b == 16807 * a - M * q
    ensures (b - 16807 * a) % M == 0
  {
    var k := 0 - q as int;
    assert b - 16807 * a == M * k;
    Multiple(k);
  }

  predicate Goes(s: seq<nat>, i: nat)
    requires 0 < i < |s|
  {
    s[i - 1] < WORD && Successor(s[i - 1], s[i])
  }

  lemma OneSuccessor(a: nat, b: nat, c: nat)
    requires a < WORD && Successor(a, b) && Successor(a, c)
    ensures b == c
  {
    var j, k := (b - 16807 * ToSigned(a)) / M, (c - 16807 * ToSigned(a)) / M;
    assert b - c == M * (j - k);
  }

  /** A table is determined by its first word. */
  lemma {:induction false} SeededOnly(s: seq<nat>, t: seq<nat>, n: nat)
    requires 0 < n <= |s| && n <= |t| && s[0] == t[0]
    requires forall i :: 0 < i < n ==> Goes(s, i) && Goes(t, i)
    ensures s[..n] == t[..n]
  {
    if n > 1 {
      SeededOnly(s, t, n - 1);
      assert s[n - 2] == s[..n - 1][n - 2] == t[..n - 1][n - 2] == t[n - 2];
      assert Goes(s, n - 1) && Goes(t, n - 1);
      OneSuccessor(s[n - 2], s[n - 1], t[n - 1]);
      assert s[..n] == s[..n - 1] + [s[n - 1]] && t[..n] == t[..n - 1] + [t[n - 1]];
    }
  }

  const SEEDED: seq<nat> := [
    0x00000001, 0x000041a7, 0x10d63af1, 0x60b7acd9, 0x3ab50c2a, 0x4431b782, 0x1c06dac8, 0x06058ed8,
    0x56e509fe, 0x56f32f43, 0x77a4044d, 0x31169898, 0x427c3c55, 0x6a5d128c, 0x046cdbe2, 0x06d7d4b3,
    0x43cd3747, 0x55e83917, 0x00fc4111, 0x3113c398, 0x088e4954, 0x35702e2f, 0x57e82b11, 0x4b63962d,
    0x77188b05, 0x6c4f3258, 0x437266f5, 0x0bc5816b, 0x53b39dd6, 0x353f7788, 0x59c09d07]

  const QUOTIENTS: seq<nat> := [
    0, 0, 0, 2210, 12699, 7708, 8954, 3680, 790, 11409, 11416, 15709, 6445, 8729,
    13966, 581, 898, 8902, 11280, 129, 6444, 1123, 7016, 11542, 9898, 15637, 14221, 8856,
    1545, 10990, 6991]

  const T1: seq<nat> := [
    0xaf87e9a1, 0x03fca9a7, 0x40e71b95, 0x60b7acda, 0x3ab54dd1, 0x5507f273, 0x7cbe87a2, 0x40badca9,
    0xabecfc71, 0xd3b1b6e5, 0xb85ee0f6, 0xdd039509, 0x162df33a, 0x22bbf382, 0xe17070eb, 0x1d05c7ed,
    0x66892ac9, 0x3758aa02, 0x1e0208fe, 0x979cee61, 0x3fe6f356, 0x5372372d, 0xef851972, 0x8b4a8983,
    0xca8ac232, 0x5bd44bca, 0xcebcf078, 0xd650439d, 0xaf87e9a0, 0x03fc6800, 0x3010e0a4]
  const T2: seq<nat> := [
    0x0316fa40, 0xd9903967, 0x172ad25c, 0x103f967b, 0x3eb1f778, 0x95ef0e08, 0x8cfe1e1d, 0x7f6cd421,
    0x41dc0a79, 0x60afd502, 0x37cbb517, 0x1edf9f82, 0x76ddc83c, 0x5a87a899, 0x0050106d, 0x93e39029,
    0xc110d362, 0x37a8ba6f, 0xb1e59927, 0x58adc1c3, 0x778fadc5, 0x0557d054, 0x4832db35, 0x02da3748,
    0xcfe29286, 0xa40726ff, 0xd19727c0, 0xa632d623, 0x538f109f, 0xd5938fc0, 0xd643b6c7]
  const T3: seq<nat> := [
    0x86a104e8, 0x40f32b2f, 0x26873786, 0x135690bb, 0x184230df, 0xad19e064, 0xa054aed8, 0x97af0500,
    0xeef5eadd, 0x010483da, 0xcf7aba17, 0x0dd58a5f, 0x77e24c16, 0x2a0262b0, 0x0e259acc, 0x0bc5dc3f,
    0xeb133612, 0x45ce553b, 0xbdab7566, 0x43c0f7d5, 0xbd5e0300, 0xc30345ba, 0x8bf3d30a, 0xc0383a48,
    0x92e5d840, 0x2ffafa09, 0x91cf6208, 0x3918ae63, 0x838a0aa8, 0x6762f1c8, 0x0f5c652a]
  const T4: seq<nat> := [
    0xdf4f885f, 0xdc1c3974, 0x4189cf1d, 0x99f795a3, 0x59355c0e, 0xd3a117ea, 0x3a4c447b, 0xf0e4610e,
    0xc29702c7, 0x3b50c855, 0xc05f1b25, 0xd06c8d26, 0xb333146b, 0xea617dd5, 0xde9227f2, 0xbef8f0aa,
    0xd574b3e7, 0x24607d2d, 0x7ca46610, 0x1935abbc, 0xe1be802d, 0x3fa7abca, 0xa5297ec6, 0xa1f6ba75,
    0xd28d840a, 0xd52478cf, 0x33c61c7d, 0x0ba6326d, 0x58ae8377, 0x9b290e45, 0x1b029797]
  const T5: seq<nat> := [
    0x71ecf298, 0xd9e1baeb, 0x581c5eec, 0x79471e02, 0x35519582, 0x152ae707, 0xb393627d, 0x2635f690,
    0xd7c1e9ce, 0xeee42ad2, 0xe69511b5, 0xa82e76f4, 0xa2173f3d, 0xd0f68f8a, 0x86c09ee6, 0x61102fe7,
    0xa66b4371, 0xab211c13, 0xddb495f7, 0xbfa0ef2d, 0x8cdf9c40, 0x1d5c41c1, 0x64ca6df3, 0x2ed656b5,
    0xefe9c5cb, 0x39eee6c2, 0x629c7332, 0xfb8ff838, 0x929d6a39, 0xfdc58177, 0x16928fcf]
  const T6: seq<nat> := [
    0xf644cc60, 0x15130437, 0xe60c9183, 0xeb34109a, 0x0f33506d, 0x6d4745f3, 0x9ec77317, 0x356946fd,
    0x45092fc1, 0x8dab9de9, 0x1bfe58b2, 0xed37a6b5, 0x2fc2dd26, 0xecf4e83c, 0x73f8459b, 0x90d30d0d,
    0x93602bad, 0x1f1961ae, 0x6e87a304, 0x53011ada, 0xabf8fdee, 0x8be3e4c5, 0xb7cb88cd, 0xdacf54a3,
    0x7bcdaa90, 0xf1ba6f8f, 0x3d6bc7d5, 0x775da2c8, 0x8457d9c8, 0x3b31494c, 0x8df03297]
  const T7: seq<nat> := [
    0x6d26c19a, 0x2d1ebd1e, 0x30157168, 0xe178dcfa, 0x244654a4, 0x5353d776, 0x80405011, 0x59af9ba1,
    0x985d0737, 0x0debedfa, 0x75adf453, 0x8594adec, 0x3daecb20, 0x62a2dc8f, 0xf98cf387, 0xce81d82d,
    0xf603083c, 0x18a65535, 0x3d097b31, 0x49042316, 0xc49f5323, 0xc8ed5ff6, 0x00cfabe3, 0x9f6ea7c6,
    0x44bb0a86, 0xf28a1b72, 0xdcda6f9b, 0xbc18ad4e, 0x76e1f53a, 0x180bb8e7, 0x4a08dfe5]
  const T8: seq<nat> := [
    0x99cf27c0, 0x39a12746, 0x69e56434, 0x4e9f9e94, 0x516511c2, 0x836948de, 0xcedfeea5, 0xab14ad63,
    0x1bc65015, 0xdccbdc9f, 0x20c2a1b6, 0xa15afe01, 0x1a7aa7bf, 0x83657e45, 0x9ae7f188, 0xe8fc7fec,
    0x79688681, 0xb38e46bd, 0x2605fb1d, 0xc26ca997, 0x782d99e0, 0xeef35b13, 0xc33c557a, 0x179c41a6,
    0x33ae6599, 0xb5c670ec, 0xf476b141, 0xefc712e7, 0x2ca86626, 0x0c826a28, 0x39cff2cc]
  const T9: seq<nat> := [
    0x55928aca, 0xc34a51a2, 0x73b5def3, 0xe86ec654, 0x8b063908, 0xed4ead12, 0xb74eb4f9, 0x361ae66b,
    0x0914fd27, 0x941a9198, 0x56dd8821, 0xaa6ffb28, 0xae953957, 0xda430666, 0x4557ecb0, 0x9791b943,
    0x53ab8ce7, 0xf8e6336d, 0xbd97b460, 0x1618367e, 0x7113cd4d, 0xac8b0f73, 0xd9548bf8, 0x88b00ef3,
    0xe039750c, 0x8f1afce4, 0x7d26c034, 0xd00087f3, 0xbbc3630a, 0x89a92a5c, 0x09d07abf]

  lemma Around1()
    ensures Around(SEEDED, T1)
  {
    AllAdd(SEEDED, T1);
  }

  lemma Around2()
    ensures Around(T1, T2)
  {
    AllAdd(T1, T2);
  }

  lemma Around3()
    ensures Around(T2, T3)
  {
    AllAdd(T2, T3);
  }

  lemma Around4()
    ensures Around(T3, T4)
  {
    AllAdd(T3, T4);
  }

  lemma Around5()
    ensures Around(T4, T5)
  {
    AllAdd(T4, T5);
  }

  lemma Around6()
    ensures Around(T5, T6)
  {
    AllAdd(T5, T6);
  }

  lemma Around7()
    ensures Around(T6, T7)
  {
    AllAdd(T6, T7);
  }

  lemma Around8()
    ensures Around(T7, T8)
  {
    AllAdd(T7, T8);
  }

  lemma Around9()
    ensures Around(T8, T9)
  {
    AllAdd(T8, T9);
  }

  lemma Around10()
    ensures Around(T9, RAND_TABLE)
  {
    AllAdd(T9, RAND_TABLE);
  }

  /** The tables on the way. */
  const TABLES: seq<seq<nat>> := [SEEDED, T1, T2, T3, T4, T5, T6, T7, T8, T9, RAND_TABLE]

  lemma AroundEach(k: nat)
    requires k < 10
    ensures Around(TABLES[k], TABLES[k + 1])
  {
    Around1();
    Around2();
    Around3();
    Around4();
    Around5();
    Around6();
    Around7();
    Around8();
    Around9();
    Around10();
  }

  /** Ten times around the seeded table. */
  lemma TenTimesAround()
    ensures Leads(SEEDED, 10 * DEG, RAND_TABLE)
  {
    forall k: nat | k < 10 ensures Around(TABLES[k], TABLES[k + 1]) { AroundEach(k); }
    AroundAll(TABLES, 10);
  }

  /** Six words of a table. */
  lemma SixGo(s: seq<nat>, quotients: seq<nat>, at: nat)
    requires 0 < at && at + 5 < |s| == |quotients|
    requires GoesBy(s, quotients, at) && GoesBy(s, quotients, at + 1) && GoesBy(s, quotients, at + 2)
    requires GoesBy(s, quotients, at + 3) && GoesBy(s, quotients, at + 4) && GoesBy(s, quotients, at + 5)
    ensures forall i :: at <= i < at + 6 ==> Goes(s, i)
  {
    forall i | at <= i < at + 6 ensures Goes(s, i) {
      GoesByGoes(s, quotients, i);
    }
  }

  lemma TableGoes(i: nat)
    requires 0 < i < DEG
    ensures Goes(SEEDED, i)
  {
    SixGo(SEEDED, QUOTIENTS, 1);
    SixGo(SEEDED, QUOTIENTS, 7);
    SixGo(SEEDED, QUOTIENTS, 13);
    SixGo(SEEDED, QUOTIENTS, 19);
    SixGo(SEEDED, QUOTIENTS, 25);
  }

  lemma SeededGoes(i: nat)
    requires 0 < i < DEG
    ensures Goes(Seeded(1, DEG), i)
  {
    var t := Seeded(1, DEG);
    assert Successor(t[i - 1], t[i]);
  }

  lemma FirstTable()
    ensures SEEDED == Seeded(1, DEG)
  {
    var s, t := SEEDED, Seeded(1, DEG);
    assert |s| == DEG && s[0] == 1;
    forall i | 0 < i < DEG ensures Goes(s, i) && Goes(t, i) {
      TableGoes(i);
      SeededGoes(i);
    }
    SeededOnly(s, t, DEG);
    assert s[..DEG] == s && t[..DEG] == t;
  }

  /** The table of a new generator is the table that seeding with 1 gives. */
  lemma InitialIsSeededWithOne()
    ensures Rotated(RAND_TABLE, SEP) == Steps(Rotated(Seeded(1, DEG), SEP), 10 * DEG)
  {
    FirstTable();
    TenTimesAround();
  }

  /** So a new generator draws the numbers of one that was seeded with 1. */
  method DrawsAsSeededWithOne(n: nat) returns (initial: seq<nat>, seeded: seq<nat>)
    ensures initial == seeded && |initial| == n
  {
    var g := new Generator();
    var h := new Generator();
    h.Seed(1);
    InitialIsSeededWithOne();
    assert g.Window() == h.Window();
    ghost var w := g.Window();
    initial := g.Draw(n);
    seeded := h.Draw(n);
    assert AllDrawn(w, initial) && AllDrawn(w, seeded);
    forall k | 0 <= k < n ensures initial[k] == seeded[k] {
      assert IsDrawn(w, k, initial[k]) && IsDrawn(w, k, seeded[k]);
    }
  }
}
