/** Division by shifting and subtracting, as firmware without a divide instruction does it. */
module Division {

  const WORD := 0x1_0000_0000

  function Pow2(i: nat): (p: nat)
    ensures p > 0
  {
    if i == 0 then 1 else 2 * Pow2(i - 1)
  }

  /** `n >> i`, and bit `i` of `n`. */
  function Shifted(n: nat, i: nat): nat {
    if i == 0 then n else Shifted(n, i - 1) / 2
  }

  function BitOf(n: nat, i: nat): nat {
    Shifted(n, i) % 2
  }

  lemma {:induction false} ShiftBounded(n: nat, i: nat, k: nat)
    requires n < Pow2(i + k)
    ensures Shifted(n, i) < Pow2(k)
    decreases i
  {
    if i > 0 {
      ShiftBounded(n, i - 1, k + 1);
    }
  }

  /** The bits fall one by one. */
  lemma BitFalls(n: nat, i: nat)
    ensures BitOf(n, i) < 2 && Shifted(n, i) == 2 * Shifted(n, i + 1) + BitOf(n, i)
  {
  }

  /** `n` divided by `d` so far gives `q`, with `r` left over. */
  predicate Divided(n: nat, d: nat, q: nat, r: nat) {
    n == q * d + r && r < d
  }

  /** One step of the long division, in exact arithmetic. */
  lemma StepExact(prefix: nat, bit: nat, d: nat, q: nat, r: nat)
    requires Divided(prefix, d, q, r) && bit < 2
    ensures var r2 := 2 * r + bit;
      && r2 <= 2 * prefix + bit
      && if r2 >= d then Divided(2 * prefix + bit, d, 2 * q + 1, r2 - d)
         else Divided(2 * prefix + bit, d, 2 * q, r2)
  {
    assert (2 * q) * d == 2 * (q * d);
    assert (2 * q + 1) * d == (2 * q) * d + d;
  }

  lemma WordIsPow2()
    ensures Pow2(32) == WORD
  {
    assert Pow2(8) == 0x100;
    assert Pow2(16) == 0x1_0000 by { assert Pow2(12) == 0x1000; }
    assert Pow2(20) == 0x10_0000;
    assert Pow2(24) == 0x100_0000;
    assert Pow2(28) == 0x1000_0000;
  }

  /** `q | (1 << i)`. */
  function SetBit(q: nat, i: nat): nat {
    if BitOf(q, i) == 1 then q else q + Pow2(i)
  }

  lemma {:induction false} MultipleShifts(k: nat, i: nat)
    ensures Shifted(k * Pow2(i), i) == k
    decreases i
  {
    if i > 0 {
      assert k * Pow2(i) == (2 * k) * Pow2(i - 1);
      MultipleShifts(2 * k, i - 1);
    }
  }

  /** The quotient bit about to be set is still clear. */
  lemma BitIsClear(k: nat, i: nat)
    ensures SetBit(k * Pow2(i + 1), i) == (2 * k + 1) * Pow2(i)
  {
    assert k * Pow2(i + 1) == (2 * k) * Pow2(i);
    MultipleShifts(2 * k, i);
    assert (2 * k + 1) * Pow2(i) == (2 * k) * Pow2(i) + Pow2(i);
  }

  lemma DividedAll(n: nat, d: nat, q: nat, r: nat)
    requires d > 0
    ensures Divided(n, d, q, r) ==> n == q * d + r && r < d && q <= n
    ensures Divided(0, d, 0, 0)
  {
    if Divided(n, d, q, r) { assert q * d >= q; }
  }

  /** The quotient bits found, shifted to their place. */
  function Placed(k: nat, i: nat): nat {
    k * Pow2(i)
  }

  lemma PlacedEnds(k: nat)
    ensures Placed(0, 32) == 0 && Placed(k, 0) == k
  {
  }

  lemma PlacedStep(k: nat, i: nat)
    ensures Placed(k, i + 1) == Placed(2 * k, i)
    ensures SetBit(Placed(k, i + 1), i) == Placed(2 * k + 1, i)
  {
    BitIsClear(k, i);
  }

  /** A round of the division: nothing is lost doubling the remainder. */
  lemma Round(n: nat, d: nat, i: nat, k: nat, r: nat)
    requires n < WORD && i < 32 && Divided(Shifted(n, i + 1), d, k, r)
    ensures var r2 := r * 2 + BitOf(n, i);
      && r2 < WORD
      && if r2 >= d then Divided(Shifted(n, i), d, 2 * k + 1, r2 - d) else Divided(Shifted(n, i), d, 2 * k, r2)
  {
    hide Pow2, Shifted, BitOf, Divided;
    BitFalls(n, i);
    WordIsPow2();
    ShiftBounded(n, i, 32 - i);
    Pow2Grows(32 - i, 32);
    StepExact(Shifted(n, i + 1), BitOf(n, i), d, k, r);
  }

  /** Restoring long division, one quotient bit a round, in 32-bit words: exact
      for every dividend and nonzero divisor, and the doubled remainder never
      loses its top bit. A zero divisor gives zeros. */
  method Udiv32(n: nat, d: nat) returns (q: nat, rem: nat)
    requires n < WORD && d < WORD
    ensures d == 0 ==> q == 0 && rem == 0
    ensures d > 0 ==> n == q * d + rem && rem < d
    ensures q < WORD
  {
    hide Pow2, Shifted, SetBit, BitOf, Divided, Placed;
    q, rem := 0, 0;
    if d == 0 {
      return;
    }
    var r: nat := 0;
    var i: int := 31;
    ghost var quotient: nat := 0; // the quotient bits found so far
    AllShiftedOut(n);
    DividedAll(n, d, 0, 0);
    PlacedEnds(0);
    while i >= 0
      invariant -1 <= i <= 31
      invariant Divided(Shifted(n, i + 1), d, quotient, r)
      invariant q == Placed(quotient, i + 1)
    {
      Round(n, d, i, quotient, r);
      PlacedStep(quotient, i);
      r := (r * 2 + BitOf(n, i)) % WORD;
      quotient := 2 * quotient;
      if r >= d {
        r := r - d;
        q := SetBit(q, i);
        quotient := quotient + 1;
      }
      i := i - 1;
    }
    rem := r;
    PlacedEnds(quotient);
    DividedAll(n, d, quotient, r);
  }

  lemma AllShiftedOut(n: nat)
    requires n < WORD
    ensures Shifted(n, 32) == 0 && Shifted(n, 0) == n
  {
    WordIsPow2();
    ShiftBounded(n, 32, 0);
  }

  lemma Pow2Grows(a: nat, b: nat)
    requires a <= b
    ensures Pow2(a) <= Pow2(b)
  {
  }

  /** Quotient and remainder are determined by what the division promises. */
  lemma QuotientIs(n: nat, d: nat, q: nat, r: nat)
    requires n == q * d + r && r < d
    ensures q == n / d && r == n % d
  {
    assert n == d * (n / d) + n % d;
    Scales(q + 1, n / d, d);
    Scales(n / d + 1, q, d);
  }

  lemma Scales(a: nat, b: nat, d: nat)
    ensures a <= b ==> a * d <= b * d
  {
  }
}
