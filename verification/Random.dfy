/** The additive-feedback generator of com/random.c. */
module Random {
  import opened Common

  const DEG: nat := 31
  const SEP: nat := 3
  /** 2^31 - 1, the modulus of the seeding generator. */
  const M: nat := 0x7FFF_FFFF

  predicate Signed(x: int) {
    -0x8000_0000 <= x < 0x8000_0000
  }

  /** Division as C has it: towards zero. */
  function Quotient(x: int, d: int): int
    requires d > 0
  {
    if x >= 0 then x / d else -((-x) / d)
  }

  /** good_rand: 16807 * x modulo 2^31 - 1, computed without leaving 32 bits. */
  function GoodRand(x: int): (r: int)
    requires Signed(x)
    ensures 1 <= r <= M && (r - 16807 * x) % M == 0
  {
    var hi := Quotient(x, 127773);
    var lo := x - 127773 * hi;
    assert Signed(127773 * hi) && -127773 < lo < 127773 && -16807 <= hi <= 16807;
    assert Signed(16807 * lo) && Signed(2836 * hi) && Signed(16807 * lo - 2836 * hi);
    var y := 16807 * lo - 2836 * hi;
    Schrage(x, hi, lo);
    if y <= 0 then y + M else y
  }

  lemma Schrage(x: int, hi: int, lo: int)
    requires x == 127773 * hi + lo
    ensures (16807 * lo - 2836 * hi - 16807 * x) % M == 0
    ensures (16807 * lo - 2836 * hi + M - 16807 * x) % M == 0
  {
    Multiple(-hi);
    Multiple(1 - hi);
  }

  lemma Multiple(k: int)
    ensures (M * k) % M == 0
  {
  }

  /** A word of the table read as a signed number, and back. */
  function ToSigned(w: nat): int
    requires w < WORD
    ensures Signed(ToSigned(w)) && (w - ToSigned(w)) % WORD == 0
  {
    if w < 0x8000_0000 then w else w - WORD
  }

  function Sum(a: nat, b: nat): nat {
    (a + b) % WORD
  }

  /** The words of the table from the oldest to the newest, one step on. */
  function Step(w: seq<nat>): (r: seq<nat>)
    requires |w| == DEG
    ensures |r| == DEG
  {
    w[1..] + [Sum(w[0], w[DEG - SEP])]
  }

  function Steps(w: seq<nat>, n: nat): (r: seq<nat>)
    requires |w| == DEG
    ensures |r| == DEG
  {
    if n == 0 then w else Step(Steps(w, n - 1))
  }

  /** The recurrence the generator is named after: x[n] = x[n - 31] + x[n - 3] modulo 2^32. */
  function Recurrence(w: seq<nat>, n: nat): nat
    requires |w| == DEG
  {
    if n < DEG then w[n] else Sum(Recurrence(w, n - DEG), Recurrence(w, n - SEP))
  }

  /** The k-th number drawn from a table: a term of the recurrence without its last bit. */
  predicate IsDrawn(w: seq<nat>, k: nat, num: nat)
    requires |w| == DEG
  {
    num == Recurrence(w, DEG + k) / 2
  }

  /** After n steps the table holds 31 consecutive terms of the recurrence. */
  lemma {:induction false} StepsFollowRecurrence(w: seq<nat>, n: nat, i: nat)
    requires |w| == DEG && i < DEG
    ensures Steps(w, n)[i] == Recurrence(w, n + i)
  {
    if n > 0 {
      if i < DEG - 1 {
        StepsFollowRecurrence(w, n - 1, i + 1);
      } else {
        StepsFollowRecurrence(w, n - 1, 0);
        StepsFollowRecurrence(w, n - 1, DEG - SEP);
      }
    }
  }

  ghost predicate AllDrawn(w: seq<nat>, nums: seq<nat>)
    requires |w| == DEG
  {
    forall k :: 0 <= k < |nums| ==> IsDrawn(w, k, nums[k])
  }

  lemma DrawnOne(w: seq<nat>, i: nat, num: nat)
    requires |w| == DEG && num == Step(Steps(w, i))[DEG - 1] / 2
    ensures IsDrawn(w, i, num)
  {
    StepsFollowRecurrence(w, i + 1, DEG - 1);
  }

  lemma DrawnNext(w: seq<nat>, nums: seq<nat>, num: nat)
    requires |w| == DEG && AllDrawn(w, nums) && num == Step(Steps(w, |nums|))[DEG - 1] / 2
    ensures AllDrawn(w, nums + [num])
  {
    DrawnOne(w, |nums|, num);
    DrawnSnoc(w, nums, num);
  }

  lemma DrawnSnoc(w: seq<nat>, nums: seq<nat>, num: nat)
    requires |w| == DEG && AllDrawn(w, nums) && IsDrawn(w, |nums|, num)
    ensures AllDrawn(w, nums + [num])
  {
    var nums' := nums + [num];
    forall k | 0 <= k < |nums'| ensures IsDrawn(w, k, nums'[k]) {
      if k < |nums| { assert nums'[k] == nums[k]; }
    }
  }

  /** A table read from place f on. */
  function Rotated(s: seq<nat>, f: nat): (w: seq<nat>)
    requires f <= |s|
    ensures |w| == |s|
  {
    s[f..] + s[..f]
  }

  /** Where the pointers are, and where they go. */
  predicate Apart(f: nat, r: nat) {
    f < DEG && (f >= SEP ==> r == f - SEP) && (f < SEP ==> r == f + DEG - SEP)
  }

  /** Where the front pointer is after n steps. */
  function PlaceAfter(f: nat, n: nat): nat {
    if n == 0 then f
    else
      var before := PlaceAfter(f, n - 1);
      if before + 1 == DEG then 0 else before + 1
  }

  lemma {:induction false} PlaceAfterIs(f: nat, n: nat)
    requires f < DEG
    ensures PlaceAfter(f, n) == (f + n) % DEG
  {
    if n > 0 { PlaceAfterIs(f, n - 1); }
  }

  lemma RotatedSteps(s: seq<nat>, f: nat, r: nat, s': seq<nat>, f': nat)
    requires |s| == DEG && Apart(f, r) && s' == s[f := Sum(s[f], s[r])] && f' == if f + 1 == DEG then 0 else f + 1
    ensures Rotated(s', f') == Step(Rotated(s, f))
  {
    var w := Rotated(s, f);
    assert w[0] == s[f] && w[DEG - SEP] == s[r];
    if f + 1 == DEG {
      assert s' == s[..f] + [s'[f]];
      assert w[1..] == s[..f];
    } else {
      assert s'[..f + 1] == s[..f] + [s'[f]];
      assert w[1..] == s[f + 1..] + s[..f];
    }
  }

  /** Word b comes after word a in seeding: 16807 times a modulo 2^31 - 1, from 1 to 2^31 - 1. */
  predicate Successor(a: nat, b: nat)
    requires a < WORD
  {
    1 <= b <= M && (b - 16807 * ToSigned(a)) % M == 0
  }

  /** The table after seeding, before it is cycled. */
  function Seeded(seed: nat, n: nat): (s: seq<nat>)
    requires seed < WORD && n > 0
    ensures |s| == n && (forall i :: 0 <= i < n ==> s[i] < WORD)
    ensures s[0] == seed && forall i :: 0 < i < n ==> Successor(s[i - 1], s[i])
  {
    if n == 1 then [seed] else
      var s := Seeded(seed, n - 1);
      s + [GoodRand(ToSigned(s[n - 2]))]
  }

  function Power(b: nat, n: nat): nat {
    if n == 0 then 1 else b * Power(b, n - 1)
  }

  /** Word i of a seeded table is the seed times 16807^i modulo 2^31 - 1. */
  lemma {:induction false} SeededIsPower(seed: nat, n: nat, i: nat)
    requires seed < WORD && i < n
    ensures (ToSigned(Seeded(seed, n)[i]) - Power(16807, i) * ToSigned(seed)) % M == 0
    ensures i > 0 ==> ToSigned(Seeded(seed, n)[i]) == Seeded(seed, n)[i]
  {
    if i > 0 {
      SeededIsPower(seed, n, i - 1);
      var s := Seeded(seed, n);
      assert Successor(s[i - 1], s[i]);
      TimesOnce(s[i], ToSigned(s[i - 1]), Power(16807, i - 1), ToSigned(seed));
    }
  }

  lemma TimesOnce(b: nat, a: int, p: nat, x: int)
    requires (b - 16807 * a) % M == 0 && (a - p * x) % M == 0
    ensures (b - (16807 * p) * x) % M == 0
  {
    var j, k := (b - 16807 * a) / M, (a - p * x) / M;
    assert b - 16807 * a == M * j && a - p * x == M * k;
    assert (16807 * p) * x == 16807 * (p * x);
    assert b - (16807 * p) * x == M * (j + 16807 * k);
    Multiple(j + 16807 * k);
  }

  /** The table that a new generator starts with. */
  const RAND_TABLE: seq<nat> := [
    0x991539b1, 0x16a5bce3, 0x6774a4cd, 0x3e01511e, 0x4e508aaa, 0x61048c05, 0xf5500617, 0x846b7115,
    0x6a19892c, 0x896a97af, 0xdb48f936, 0x14898454, 0x37ffd106, 0xb58bff9c, 0x59e17104, 0xcf918a49,
    0x09378c83, 0x52c7a471, 0x8d293ea9, 0x1f4fc301, 0xc3db71be, 0x39b44e1c, 0xf8a44ef9, 0x4c8b80b1,
    0x19edc328, 0x87bf4bdd, 0xc9b240e5, 0xe9ee4b1b, 0x4382aee7, 0x535b6b41, 0xf3bec5da]

  class Generator {
    var state: array<nat>
    var fptr: nat
    var rptr: nat

    /** The pointers are three places apart around the table. */
    ghost predicate Valid()
      reads this, state
    {
      && state.Length == DEG && Apart(fptr, rptr)
      && forall i :: 0 <= i < DEG ==> state[i] < WORD
    }

    /** The table from the oldest word to the newest. */
    ghost function Window(): (w: seq<nat>)
      reads this, state
      requires Valid()
      ensures |w| == DEG
    {
      Rotated(state[..], fptr)
    }

    /** oskit_random_create. */
    constructor ()
      ensures Valid() && fresh(state) && fptr == SEP && rptr == 0 && state[..] == RAND_TABLE
    {
      state := new nat[DEG](i requires 0 <= i < DEG => RAND_TABLE[i]);
      fptr, rptr := SEP, 0;
    }

    /** random: one step of the recurrence; the least significant bit is dropped. The rear pointer
        is not tested when the front one wraps, and need not be. */
    method Next() returns (num: nat)
      requires Valid()
      modifies this`fptr, this`rptr, state
      ensures Valid() && state == old(state)
      ensures Window() == Step(old(Window()))
      ensures num == Step(old(Window()))[DEG - 1] / 2 < 0x8000_0000
      ensures fptr == if old(fptr) + 1 == DEG then 0 else old(fptr) + 1
    {
      ghost var s := state[..];
      var f, r := fptr, rptr;
      state[f] := Sum(state[f], state[r]);
      num := state[f] / 2;
      RotatedSteps(s, f, r, state[..], if f + 1 == DEG then 0 else f + 1);
      f := f + 1;
      if f >= DEG {
        f := 0;
        r := r + 1;
      } else {
        r := r + 1;
        if r >= DEG {
          r := 0;
        }
      }
      fptr, rptr := f, r;
    }

    /** n calls of random yield the terms of the recurrence from the 31st on, halved. */
    method Draw(n: nat) returns (nums: seq<nat>)
      requires Valid()
      modifies this`fptr, this`rptr, state
      ensures Valid() && state == old(state) && Window() == Steps(old(Window()), n)
      ensures |nums| == n && AllDrawn(old(Window()), nums)
    {
      ghost var w := Window();
      nums := [];
      for i := 0 to n
        invariant Valid() && state == old(state) && Window() == Steps(w, i)
        invariant |nums| == i && AllDrawn(w, nums)
      {
        var num := Next();
        assert Window() == Step(Steps(w, i));
        DrawnNext(w, nums, num);
        nums := nums + [num];
      }
    }

    /** srandom: seeds the table, then cycles it ten times, after which the pointers are back where
        they were set. */
    method Seed(x: nat)
      requires Valid() && x < WORD
      modifies this`fptr, this`rptr, state
      ensures Valid() && state == old(state) && fptr == SEP && rptr == 0
      ensures Window() == Steps(Rotated(Seeded(x, DEG), SEP), 10 * DEG)
    {
      FillTable(x);
      fptr, rptr := SEP, 0;
      Cycle(10 * DEG);
    }

    /** The loop that cycles the table. */
    method Cycle(n: nat)
      requires Valid()
      modifies this`fptr, this`rptr, state
      ensures Valid() && state == old(state) && Window() == Steps(old(Window()), n)
      ensures fptr == (old(fptr) + n) % DEG
    {
      ghost var w, f := Window(), fptr;
      for i := 0 to n
        invariant Valid() && state == old(state) && Window() == Steps(w, i)
        invariant fptr == PlaceAfter(f, i)
      {
        var dummy := Next();
      }
      PlaceAfterIs(f, n);
    }

    method FillTable(x: nat)
      requires Valid() && x < WORD
      modifies state
      ensures state[..] == Seeded(x, DEG)
    {
      state[0] := x;
      for i := 1 to DEG
        invariant state[..i] == Seeded(x, i)
      {
        state[i] := GoodRand(ToSigned(state[i - 1]));
        assert state[..i + 1] == state[..i] + [state[i]];
      }
      assert state[..] == state[..DEG];
    }
  }
}
