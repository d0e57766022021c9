/** Bitwise operations on unsigned numbers, and what they are in arithmetic. */
module Bits {

  function Pow2(k: nat): (r: nat)
    ensures r > 0
  {
    if k == 0 then 1 else 2 * Pow2(k - 1)
  }

  const WORD := 0x1_0000_0000

  function And(a: nat, b: nat): nat
  {
    if a == 0 || b == 0 then 0 else (if a % 2 == 1 && b % 2 == 1 then 1 else 0) + 2 * And(a / 2, b / 2)
  }

  function Or(a: nat, b: nat): nat
    decreases a + b
  {
    if a == 0 && b == 0 then 0 else (if a % 2 == 1 || b % 2 == 1 then 1 else 0) + 2 * Or(a / 2, b / 2)
  }

  /** Shifts of 32-bit words. */
  function Shl(a: nat, k: nat): (r: nat)
    ensures r < WORD
  {
    a * Pow2(k) % WORD
  }

  function Shr(a: nat, k: nat): nat
    decreases k
  {
    if k == 0 then a else Shr(a / 2, k - 1)
  }

  /** The low k bits. */
  function Low(a: nat, k: nat): (r: nat)
    ensures r < Pow2(k)
    decreases k
  {
    if k == 0 then 0 else a % 2 + 2 * Low(a / 2, k - 1)
  }

  // ---------------------------------------------------------------- division

  lemma Divided(x: nat, d: nat, q: nat, r: nat)
    requires r < d && x == q * d + r
    ensures x / d == q && x % d == r
  {
    if x / d < q {
      Below(x / d + 1, q, d);
    } else if x / d > q {
      Below(q + 1, x / d, d);
    }
  }

  lemma Below(a: nat, b: nat, d: nat)
    requires a <= b
    ensures a * d <= b * d
  {
  }

  lemma {:induction false} Pow2Sum(a: nat, b: nat)
    ensures Pow2(a + b) == Pow2(a) * Pow2(b)
  {
    if a == 0 {
    } else {
      Pow2Sum(a - 1, b);
      assert Pow2(a + b) == 2 * (Pow2(a - 1) * Pow2(b));
      assert 2 * (Pow2(a - 1) * Pow2(b)) == (2 * Pow2(a - 1)) * Pow2(b);
    }
  }

  lemma Halves(x: nat)
    ensures x == 2 * (x / 2) + x % 2
  {
  }

  /** The low k bits and the rest make up the number. */
  lemma {:induction false} Parts(a: nat, k: nat)
    ensures a == Shr(a, k) * Pow2(k) + Low(a, k)
    decreases k
  {
    if k == 0 {
    } else {
      Parts(a / 2, k - 1);
      Halves(a);
      Twice(Shr(a, k), Pow2(k - 1));
    }
  }

  lemma Twice(a: nat, b: nat)
    ensures a * (2 * b) == 2 * (a * b)
  {
  }

  /** A number has one such decomposition. */
  lemma {:induction false} PartsAre(q: nat, r: nat, k: nat)
    requires r < Pow2(k)
    ensures Shr(q * Pow2(k) + r, k) == q && Low(q * Pow2(k) + r, k) == r
    decreases k
  {
    if k == 0 {
    } else {
      var p := Pow2(k - 1);
      Twice(q, p);
      Halves(r);
      assert (2 * (q * p) + r) / 2 == q * p + r / 2 && (2 * (q * p) + r) % 2 == r % 2;
      PartsAre(q, r / 2, k - 1);
    }
  }

  lemma ShiftIsDivision(a: nat, k: nat)
    ensures Shr(a, k) == a / Pow2(k) && Low(a, k) == a % Pow2(k)
  {
    Parts(a, k);
    Divided(a, Pow2(k), Shr(a, k), Low(a, k));
  }

  // ---------------------------------------------------------------- masks

  /** A mask of the low k bits. */
  lemma {:induction false} AndLow(x: nat, k: nat)
    ensures And(x, Pow2(k) - 1) == Low(x, k)
    decreases k
  {
    if k == 0 {
    } else {
      var p := Pow2(k - 1);
      AndLow(x / 2, k - 1);
      assert (2 * p - 1) / 2 == p - 1 && (2 * p - 1) % 2 == 1;
      if x == 0 {
        PartsAre(0, 0, k);
      }
    }
  }

  /** A mask m shifted to the left. */
  lemma {:induction false} AndShifted(x: nat, m: nat, k: nat)
    ensures And(x, m * Pow2(k)) == And(Shr(x, k), m) * Pow2(k)
    decreases k
  {
    hide And;
    if k == 0 {
    } else {
      var p := Pow2(k - 1);
      AndShifted(x / 2, m, k - 1);
      Twice(m, p);
      AndEven(x, m * p);
      Twice(And(Shr(x, k), m), p);
    }
  }

  lemma AndEven(x: nat, y: nat)
    ensures And(x, 2 * y) == 2 * And(x / 2, y)
  {
  }

  lemma {:induction false} OrZero(a: nat)
    ensures Or(a, 0) == a
  {
    if a == 0 {
    } else {
      OrZero(a / 2);
      Halves(a);
    }
  }

  /** Bits that do not overlap add up. */
  lemma {:induction false} OrDisjoint(a: nat, b: nat, k: nat)
    requires b < Pow2(k)
    ensures Or(a * Pow2(k), b) == a * Pow2(k) + b
    decreases k
  {
    if k == 0 {
      OrZero(a);
    } else {
      var p := Pow2(k - 1);
      Halves(b);
      OrDisjoint(a, b / 2, k - 1);
      Twice(a, p);
      OrEven(a * p, b);
    }
  }

  lemma OrEven(x: nat, b: nat)
    ensures Or(2 * x, b) == 2 * Or(x, b / 2) + b % 2
  {
  }

  // ---------------------------------------------------------------- compositions

  lemma {:induction false} LowLow(a: nat, j: nat, k: nat)
    requires k <= j
    ensures Low(Low(a, j), k) == Low(a, k)
    decreases k
  {
    if k == 0 {
    } else {
      LowLow(a / 2, j - 1, k - 1);
    }
  }

  lemma {:induction false} ShrShr(a: nat, j: nat, k: nat)
    ensures Shr(Shr(a, j), k) == Shr(a, j + k)
    decreases j
  {
    if j == 0 {
    } else {
      ShrShr(a / 2, j - 1, k);
    }
  }

  lemma {:induction false} Grows(j: nat, k: nat)
    requires j <= k
    ensures Pow2(j) <= Pow2(k)
    decreases k - j
  {
    if j == k {
    } else {
      Grows(j, k - 1);
    }
  }

  lemma Sixteen()
    ensures Pow2(4) == 16
  {
    assert Pow2(2) == 4;
  }

  lemma Word()
    ensures Pow2(32) == WORD
  {
    hide Pow2;
    Sixteen();
    Pow2Sum(4, 4);
    Pow2Sum(8, 8);
    Pow2Sum(16, 16);
  }

  /** a * 2^k stays below 2^(j + k). */
  lemma Fits(a: nat, j: nat, k: nat)
    requires a < Pow2(j)
    ensures a * Pow2(k) + Pow2(k) <= Pow2(j + k)
  {
    Pow2Sum(j, k);
    Below(a + 1, Pow2(j), Pow2(k));
    assert (a + 1) * Pow2(k) == a * Pow2(k) + Pow2(k);
  }

  lemma ShlFits(a: nat, j: nat, k: nat)
    requires a < Pow2(j) && j + k <= 32
    ensures Shl(a, k) == a * Pow2(k)
  {
    hide Pow2;
    Fits(a, j, k);
    Grows(j + k, 32);
    Word();
  }

  lemma LowShl(a: nat, k: nat, s: nat)
    requires s <= 32
    ensures Low(Shl(a, k), s) == Low(a * Pow2(k), s)
  {
    hide Pow2, Low;
    Word();
    ShiftIsDivision(a * Pow2(k), 32);
    LowLow(a * Pow2(k), 32, s);
  }

  lemma {:induction false} LowSmall(a: nat, k: nat)
    requires a < Pow2(k)
    ensures Low(a, k) == a && Shr(a, k) == 0
    decreases k
  {
    PartsAre(0, a, k);
  }
}
