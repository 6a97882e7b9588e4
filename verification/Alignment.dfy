/** Rounding addresses up to a power of two, in 32-bit arithmetic. */
module Alignment {
  import opened Common

  function Pow2(k: nat): (p: nat)
    ensures p > 0
  {
    if k == 0 then 1 else 2 * Pow2(k - 1)
  }

  /** Least multiple of `unit` at or above a. */
  function Align(a: nat, unit: nat): (r: nat)
    requires unit > 0
    ensures a <= r < a + unit && r % unit == 0
    ensures forall m: nat :: a <= m < r ==> m % unit != 0
  {
    AlignFacts(a, unit);
    if a % unit == 0 then a else a + (unit - a % unit)
  }

  lemma AlignFacts(a: nat, unit: nat)
    requires unit > 0
    ensures a % unit != 0 ==> (a + (unit - a % unit)) % unit == 0
    ensures forall m: nat :: a % unit != 0 && a <= m < a + (unit - a % unit) ==> m % unit != 0
  {
    var q, s := a / unit, a % unit;
    assert a == q * unit + s;
    if s != 0 {
      assert a + (unit - s) == (q + 1) * unit + 0;
      ModOf(a + (unit - s), unit, q + 1, 0);
      forall m: nat | a <= m < a + (unit - s) ensures m % unit != 0 {
        ModOf(m, unit, q, m - q * unit);
      }
    }
  }

  /** The remainder is the one that goes with the quotient. */
  lemma ModOf(x: nat, unit: nat, q: nat, r: nat)
    requires unit > 0 && x == q * unit + r && r < unit
    ensures x % unit == r
  {
    var q', r' := x / unit, x % unit;
    assert x == q' * unit + r';
    assert q' < q ==> (q' + 1) * unit <= q * unit;
    assert q < q' ==> (q + 1) * unit <= q' * unit;
  }

  lemma {:induction false} Pow2Split(k: nat, n: nat)
    requires k <= n
    ensures Pow2(n) == Pow2(n - k) * Pow2(k)
    decreases k
  {
    if k > 0 {
      Pow2Split(k - 1, n);
      var x, y := Pow2(n - k), Pow2(k - 1);
      assert Pow2(n - k + 1) == 2 * x && Pow2(k) == 2 * y;
      assert (2 * x) * y == x * (2 * y);
    }
  }

  lemma Pow2Of32()
    ensures Pow2(32) == WORD
  {
    assert Pow2(8) == 256;
    Pow2Split(8, 16);
    Pow2Split(16, 32);
  }

  /** Rounding up inside the 32-bit space either stays inside or lands exactly on its end. */
  lemma AlignLandsInSpace(a: nat, bits: nat)
    requires a < WORD && bits < 32
    ensures WORD % Pow2(bits) == 0 && Align(a, Pow2(bits)) <= WORD
  {
    Pow2Of32();
    Pow2Split(bits, 32);
    ModOf(WORD, Pow2(bits), Pow2(32 - bits), 0);
  }

  /** Rounding up from just above the last multiple in the space gives its end. */
  lemma AlignToEnd(p: nat, unit: nat, n: nat)
    requires n > 0 && unit > 1 && WORD == n * unit && p == WORD - unit + 1
    ensures Align(p, unit) == WORD
  {
    ModOf(WORD, unit, n, 0);
    var r := Align(p, unit);
    if r < WORD {
      assert (n - 1) * unit == n * unit - unit;
      ModOf(r, unit, n - 1, r - (WORD - unit));
    }
  }

  /** Rounding up as the 32-bit type holds it. */
  function Align32(a: nat, bits: nat): (r: nat)
    requires a < WORD && bits < 32
    ensures r < WORD && r % Pow2(bits) == 0
  {
    AlignLandsInSpace(a, bits);
    ModOf(0, Pow2(bits), 0, 0);
    var r := Align(a, Pow2(bits));
    if r < WORD then r else 0
  }

  /** The bitwise conjunction of two numbers. */
  function And(x: nat, y: nat): nat {
    if x == 0 || y == 0 then 0
    else 2 * And(x / 2, y / 2) + if x % 2 == 1 && y % 2 == 1 then 1 else 0
  }

  lemma {:induction false} Pow2Grows(k: nat, n: nat)
    requires k <= n
    ensures Pow2(k) <= Pow2(n)
  {
    if k < n { Pow2Grows(k, n - 1); }
  }

  lemma {:induction false} AndOnes(x: nat, n: nat)
    requires x < Pow2(n)
    ensures And(x, Pow2(n) - 1) == x
  {
    if x > 0 {
      AndOnes(x / 2, n - 1);
      assert Pow2(n) - 1 == 2 * (Pow2(n - 1) - 1) + 1;
    }
  }

  lemma ModHalf(x: nat, unit: nat)
    requires unit > 0
    ensures x % (2 * unit) == 2 * (x / 2 % unit) + x % 2
  {
    var h := x / 2;
    var q, s := h / unit, h % unit;
    assert h == q * unit + s;
    assert q * (2 * unit) == 2 * (q * unit);
    ModOf(x, 2 * unit, q, 2 * s + x % 2);
  }

  lemma AndEven(x: nat, y: nat)
    ensures And(x, 2 * y) == 2 * And(x / 2, y)
  {
    var z := 2 * y;
    assert z / 2 == y && z % 2 == 0;
  }

  /** x with its low bits cleared. */
  function Cleared(x: nat, bits: nat): nat {
    if bits == 0 then x else 2 * Cleared(x / 2, bits - 1)
  }

  lemma {:induction false} ClearedDropsRest(x: nat, bits: nat)
    ensures Cleared(x, bits) == x - x % Pow2(bits)
  {
    if bits > 0 {
      ClearedDropsRest(x / 2, bits - 1);
      ModHalf(x, Pow2(bits - 1));
    }
  }

  /** A conjunction with the complement of a mask clears the low bits. */
  lemma {:induction false} AndHigh(x: nat, bits: nat, n: nat)
    requires bits <= n && x < Pow2(n)
    ensures Pow2(bits) <= Pow2(n) && And(x, Pow2(n) - Pow2(bits)) == Cleared(x, bits)
  {
    Pow2Grows(bits, n);
    if bits == 0 {
      AndOnes(x, n);
    } else {
      AndHigh(x / 2, bits - 1, n - 1);
      AndEven(x, Pow2(n - 1) - Pow2(bits - 1));
    }
  }

  lemma ModShift(r: nat, d: nat, unit: nat)
    requires unit > 0 && r % unit == 0 && d < unit
    ensures (r + d) % unit == d
  {
    ModOf(r + d, unit, r / unit, d);
  }

  /** Rounding up adds one less than the unit, in 32 bits, and drops what is less than a unit. */
  lemma RoundsByAdding(a: nat, unit: nat, r: nat)
    requires a < WORD && 0 < unit <= WORD && WORD % unit == 0 && r % unit == 0 && a <= r < a + unit && r <= WORD
    ensures var sum := Wrap(a + (unit - 1)); sum - sum % unit == if r < WORD then r else 0
  {
    if r < WORD {
      if r + unit > WORD { ModShift(r, WORD - r, unit); }
      ModShift(r, a + unit - 1 - r, unit);
    } else {
      ModOf(0, unit, 0, 0);
      ModShift(0, a + unit - 1 - WORD, unit);
    }
  }

  lemma MaskOfUnits(x: nat, bits: nat)
    requires x < WORD && bits < 32
    ensures 0 < Pow2(bits) <= WORD && And(x, WORD - Pow2(bits)) == x - x % Pow2(bits)
  {
    Pow2Of32();
    AndHigh(x, bits, 32);
    ClearedDropsRest(x, bits);
  }

  lemma UnitInSpace(bits: nat)
    requires 0 < bits < 32
    ensures 2 <= Pow2(bits) <= 0x8000_0000 && 0 % Pow2(bits) == 0
  {
    Pow2Of32();
    Pow2Grows(1, bits);
    Pow2Grows(bits, 31);
    ModOf(0, Pow2(bits), 0, 0);
  }

  /** `(a + mask) & ~mask` with mask = 2^bits - 1, in 32 bits. */
  lemma RoundsByMask(a: nat, bits: nat)
    requires a < WORD && bits < 32
    ensures Pow2(bits) <= WORD && Align32(a, bits) == And(Wrap(a + (Pow2(bits) - 1)), WORD - Pow2(bits))
  {
    MaskOfUnits(0, bits);
    var unit := Pow2(bits);
    AlignLandsInSpace(a, bits);
    RoundsByAdding(a, unit, Align(a, unit));
    MaskOfUnits(Wrap(a + (unit - 1)), bits);
  }
}
