/** Powers of two, Euclidean division and the bitwise operators on natural numbers. */
module Binary {

  function Pow2(n: nat): (p: int)
    ensures p >= 1
  {
    if n == 0 then 1 else 2 * Pow2(n - 1)
  }

  lemma {:induction false} PowAdd(a: nat, b: nat)
    ensures Pow2(a + b) == Pow2(a) * Pow2(b)
  {
    if a > 0 {
      PowAdd(a - 1, b);
      assert Pow2(a + b) == 2 * (Pow2(a - 1) * Pow2(b));
    }
  }

  lemma {:induction false} PowMono(a: nat, b: nat)
    requires a <= b
    ensures Pow2(a) <= Pow2(b)
  {
    if a < b { PowMono(a, b - 1); }
  }

  lemma MulBound(m: int, d: int)
    requires m > 0
    ensures d >= 1 ==> m * d >= m
    ensures d <= -1 ==> m * d <= -m
  {}

  /** Euclidean division by a positive divisor is determined by its defining equation. */
  lemma DivUnique(x: int, m: int, q: int, r: int)
    requires m > 0 && x == q * m + r && 0 <= r < m
    ensures x / m == q && x % m == r
  {
    var d := q - x / m;
    DivMod(x, m);
    assert m * d == x % m - r by {
      assert m * d == q * m - (x / m) * m;
    }
    MulBound(m, d);
  }

  lemma MulGrows(q: int, p: int)
    requires p >= 1
    ensures q >= 0 ==> q * p >= q
    ensures q <= 0 ==> q * p <= q
  {}

  /** Division by at least one moves towards zero, never across it. */
  lemma DivShrinks(x: int, p: int)
    requires p >= 1
    ensures x >= 0 ==> 0 <= x / p <= x
    ensures x < 0 ==> x <= x / p < 0
  {
    DivMod(x, p);
    ShrinkCore(x, x / p, x % p, p);
  }

  lemma ShrinkCore(x: int, q: int, r: int, p: int)
    requires p >= 1 && x == q * p + r && 0 <= r < p
    ensures x >= 0 ==> 0 <= q <= x
    ensures x < 0 ==> x <= q < 0
  {
    MulBound(p, q);
    MulGrows(q, p);
    MulGrows(q + 1, p);
    assert (q + 1) * p == q * p + p;
  }

  /** A quotient below a product is below the other factor. */
  lemma DivBelow(x: int, p: int, q: int)
    requires p > 0 && 0 <= x < p * q
    ensures 0 <= x / p < q
  {
    DivMod(x, p);
    DivShrinks(x, p);
    BelowCore(x, x / p, x % p, p, q);
  }

  lemma BelowCore(x: int, y: int, r: int, p: int, q: int)
    requires p > 0 && x == y * p + r && 0 <= r < p && x < p * q
    ensures y < q
  {
    MulBound(p, y - q + 1);
    assert p * (y - q + 1) == y * p - p * q + p;
  }

  lemma DivMod(x: int, m: int)
    requires m > 0
    ensures x == (x / m) * m + x % m && 0 <= x % m < m
  {}

  /** Dividing twice is dividing by the product. */
  lemma DivDiv(x: int, a: int, b: int)
    requires a > 0 && b > 0
    ensures a * b > 0 && (x / a) / b == x / (a * b)
    ensures x % (a * b) == ((x / a) % b) * a + x % a
  {
    DivMod(x, a);
    DivMod(x / a, b);
    DivDivCore(x, a, b, x / a, x % a, (x / a) / b, (x / a) % b);
    DivUnique(x, a * b, (x / a) / b, ((x / a) % b) * a + x % a);
  }

  lemma DivDivCore(x: int, a: int, b: int, q: int, r: int, q': int, r': int)
    requires a > 0 && b > 0 && x == q * a + r && q == q' * b + r' && 0 <= r < a && 0 <= r' < b
    ensures a * b > 0 && x == q' * (a * b) + (r' * a + r) && 0 <= r' * a + r < a * b
  {
    MulNonNeg(r', a);
    MulNonNeg(b - 1 - r', a);
    assert (b - 1 - r') * a == a * b - a - r' * a;
    assert (q' * b) * a == q' * (a * b);
  }

  lemma MulNonNeg(x: int, y: int)
    requires x >= 0 && y >= 0
    ensures x * y >= 0
  {}

  // ---- bitwise operators ------------------------------------------------------------------

  predicate BitAt(x: nat, n: nat) {
    (x / Pow2(n)) % 2 == 1
  }

  function And(x: nat, y: nat): nat {
    if x == 0 || y == 0 then 0 else (if x % 2 == 1 && y % 2 == 1 then 1 else 0) + 2 * And(x / 2, y / 2)
  }

  function Or(x: nat, y: nat): nat
    decreases x + y
  {
    if x == 0 then y else if y == 0 then x
    else (if x % 2 == 1 || y % 2 == 1 then 1 else 0) + 2 * Or(x / 2, y / 2)
  }

  /** Masking with 2^n - 1 keeps the low n bits. */
  lemma {:induction false} AndMask(x: nat, n: nat)
    ensures And(x, Pow2(n) - 1) == x % Pow2(n)
  {
    if x == 0 {
      DivUnique(0, Pow2(n), 0, 0);
    } else if n > 0 {
      AndMask(x / 2, n - 1);
      DivDiv(x, 2, Pow2(n - 1));
      assert (Pow2(n) - 1) / 2 == Pow2(n - 1) - 1 && (Pow2(n) - 1) % 2 == 1;
    }
  }

  /** Disjoint bit ranges: or is addition. */
  lemma {:induction false} OrDisjoint(x: nat, y: nat, n: nat)
    requires x % Pow2(n) == 0 && y < Pow2(n)
    ensures Or(x, y) == x + y
  {
    if x != 0 && y != 0 {
      assert n > 0;
      DivDiv(x, 2, Pow2(n - 1));
      assert x % 2 == 0 && (x / 2) % Pow2(n - 1) == 0;
      OrDisjoint(x / 2, y / 2, n - 1);
    }
  }

  /** Or with a single bit that is not yet set. */
  lemma {:induction false} OrBit(x: nat, n: nat)
    requires !BitAt(x, n)
    ensures Or(x, Pow2(n)) == x + Pow2(n)
  {
    if x != 0 {
      if n == 0 {
        assert Or(x / 2, 0) == x / 2;
      } else {
        DivDiv(x, 2, Pow2(n - 1));
        OrBit(x / 2, n - 1);
      }
    }
  }

  lemma {:induction false} OrComm(x: nat, y: nat)
    ensures Or(x, y) == Or(y, x)
    decreases x + y
  {
    if x != 0 && y != 0 { OrComm(x / 2, y / 2); }
  }

  /** Masking with a run of m ones above k zeros. */
  lemma {:induction false} AndHigh(x: nat, m: nat, k: nat)
    ensures And(x, (Pow2(m) - 1) * Pow2(k)) == ((x / Pow2(k)) % Pow2(m)) * Pow2(k)
  {
    if k == 0 {
      AndMask(x, m);
    } else {
      var ones, h := Pow2(m) - 1, Pow2(k - 1);
      assert Pow2(k) == 2 * h;
      AndHigh(x / 2, m, k - 1);
      assert And(x, ones * (2 * h)) == 2 * And(x / 2, ones * h) by {
        Doubling(ones, h);
        MulNonNeg(ones, h);
        AndEven(x, ones * h);
      }
      assert (x / 2) / h == x / (2 * h) by { DivDiv(x, 2, h); }
      Doubling((x / (2 * h)) % Pow2(m), h);
    }
  }

  lemma Doubling(a: int, b: int)
    ensures a * (2 * b) == 2 * (a * b)
  {}

  lemma AndEven(x: nat, y: nat)
    ensures And(x, 2 * y) == 2 * And(x / 2, y)
  {
    if x == 0 || y == 0 { AndZero(x / 2, y); }
  }

  lemma AndZero(x: nat, y: nat)
    ensures x == 0 || y == 0 ==> And(x, y) == 0
  {}

  /** Or with a single bit that is already set. */
  lemma {:induction false} OrSetBit(x: nat, n: nat)
    requires BitAt(x, n)
    ensures Or(x, Pow2(n)) == x
  {
    if x == 0 {
      DivUnique(0, Pow2(n), 0, 0);
    } else if n == 0 {
      assert Or(x / 2, 0) == x / 2;
    } else {
      DivDiv(x, 2, Pow2(n - 1));
      OrSetBit(x / 2, n - 1);
    }
  }

  lemma AndClearLowest(x: nat, h: nat)
    requires x / 2 < Pow2(h)
    ensures And(x, 2 * (Pow2(h) - 1)) == x - x % 2
  {
    AndEven(x, Pow2(h) - 1);
    AndMask(x / 2, h);
    DivUnique(x / 2, Pow2(h), 0, x / 2);
  }

  /** Bit n, found by halving n times. */
  predicate BitBelow(x: nat, n: nat)
    decreases n
  {
    if n == 0 then x % 2 == 1 else BitBelow(x / 2, n - 1)
  }

  lemma {:induction false} BitBelowIs(x: nat, n: nat)
    ensures BitBelow(x, n) == BitAt(x, n)
    decreases n
  {
    if n > 0 {
      BitBelowIs(x / 2, n - 1);
      DivDiv(x, 2, Pow2(n - 1));
    }
  }

  lemma {:induction false} AndClearBelow(x: nat, n: nat, m: nat)
    requires n < m && x < Pow2(m)
    ensures 0 <= Pow2(m) - 1 - Pow2(n)
    ensures And(x, Pow2(m) - 1 - Pow2(n)) == if BitBelow(x, n) then x - Pow2(n) else x
    decreases n
  {
    PowMono(n, m - 1);
    if n == 0 {
      AndClearLowest(x, m - 1);
    } else {
      var mask, below := Pow2(m) - 1 - Pow2(n), Pow2(m - 1) - 1 - Pow2(n - 1);
      assert mask == 2 * below + 1;
      AndClearBelow(x / 2, n - 1, m - 1);
      ClearAbove(x, Pow2(n - 1), below, BitBelow(x / 2, n - 1));
    }
  }

  lemma ClearAbove(x: nat, p: int, mask: nat, on: bool)
    requires And(x / 2, mask) == if on then x / 2 - p else x / 2
    ensures And(x, 2 * mask + 1) == if on then x - 2 * p else x
  {
    AndOdd(x, mask);
  }

  /** And with the complement of a single bit, in words of m bits. */
  lemma AndClearBit(x: nat, n: nat, m: nat)
    requires n < m && x < Pow2(m)
    ensures 0 <= Pow2(m) - 1 - Pow2(n)
    ensures And(x, Pow2(m) - 1 - Pow2(n)) == if BitAt(x, n) then x - Pow2(n) else x
  {
    AndClearBelow(x, n, m);
    BitBelowIs(x, n);
  }

  lemma AndOdd(x: nat, y: nat)
    ensures And(x, 2 * y + 1) == x % 2 + 2 * And(x / 2, y)
  {
    if x == 0 || y == 0 { AndZero(x / 2, y); }
  }
}
