/** The word-level identities behind Int128's shifts, additions and bit accesses. */
module Int128Shifts {
  import opened Binary
  import opened Int128Words
  import opened Widths

  /** P * Q == 2^64 for complementary shift distances. */
  lemma PowSplit(n: nat)
    requires n <= 64
    ensures Pow2(n) * Pow2(64 - n) == B64
  {
    PowAdd(n, 64 - n);
    PowConstants();
  }

  lemma ModOfMod(x: int, p: int, q: int)
    requires p > 0 && q > 0
    ensures p * q > 0 && (x % (p * q)) % p == x % p
  {
    DivDiv(x, p, q);
    DivMod(x, p);
    DivUnique(x % (p * q), p, (x / p) % q, x % p);
  }

  /** Lines 333-345: shifting right by less than a word. */
  lemma ShrSmall(lo: U64, hi: I64, n: nat)
    requires 0 < n < 64
    ensures var low := And(ToU64(hi), Pow2(n) - 1) * Pow2(64 - n);
            && 0 <= low < B64 && 0 <= lo / Pow2(n) < B64 && -B63 <= hi / Pow2(n) < B63
            && 0 <= Or(lo / Pow2(n), low) < B64
            && Val(Or(lo / Pow2(n), low), hi / Pow2(n)) == Val(lo, hi) / Pow2(n)
  {
    var p, q := Pow2(n), Pow2(64 - n);
    PowSplit(n);
    assert And(ToU64(hi), p - 1) == hi % p by {
      AndMask(ToU64(hi), n);
      ModOfMod(hi, p, q);
    }
    var h1, h0, l1, l0 := hi / p, hi % p, lo / p, lo % p;
    DivMod(hi, p);
    DivMod(lo, p);
    DivBelow(lo, p, q);
    DivShrinks(hi, p);
    DivShrinks(lo, p);
    LowPart(h0, p, q);
    assert Or(l1, h0 * q) == h0 * q + l1 by {
      DivUnique(h0 * q, q, h0, 0);
      OrComm(l1, h0 * q);
      OrDisjoint(h0 * q, l1, 64 - n);
    }
    ShrIdentity(h1, h0, l1, l0, p, q);
    DivUnique(Val(lo, hi), p, h1 * B64 + h0 * q + l1, l0);
  }

  lemma LowPart(h0: int, p: int, q: int)
    requires 0 <= h0 < p && q > 0 && p * q == B64
    ensures 0 <= h0 * q <= B64 - q
  {
    MulNonNeg(p - 1 - h0, q);
    MulNonNeg(h0, q);
    assert (p - 1 - h0) * q == p * q - q - h0 * q;
  }

  lemma ShrIdentity(h1: int, h0: int, l1: int, l0: int, p: int, q: int)
    requires p * q == B64
    ensures (h1 * p + h0) * B64 + (l1 * p + l0) == (h1 * B64 + h0 * q + l1) * p + l0
  {
    assert h0 * B64 == (h0 * q) * p;
    assert (h1 * p) * B64 == (h1 * B64) * p;
  }

  /** Lines 327-331: shifting right by a word or more. */
  lemma ShrWord(lo: U64, hi: I64, n: nat)
    requires 64 <= n
    ensures -B63 <= hi / Pow2(n - 64) < B63
    ensures Val(ToU64(hi / Pow2(n - 64)), if hi < 0 then -1 else 0) == Val(lo, hi) / Pow2(n)
  {
    var p := Pow2(n - 64);
    PowAdd(64, n - 64);
    PowConstants();
    DivUnique(Val(lo, hi), B64, hi, lo);
    DivDiv(Val(lo, hi), B64, p);
    DivShrinks(hi, p);
    ToU64Unique(hi / p, hi / p + (if hi < 0 then B64 else 0), if hi < 0 then -1 else 0);
  }

  /** Lines 321-325: nothing but the sign is left. */
  lemma ShrAll(lo: U64, hi: I64, n: nat)
    requires 128 <= n
    ensures Val(lo, hi) / Pow2(n) == if hi < 0 then -1 else 0
  {
    PowConstants();
    PowMono(128, n);
    var v, p := Val(lo, hi), Pow2(n);
    if hi < 0 {
      DivUnique(v, p, -1, v + p);
    } else {
      DivUnique(v, p, 0, v);
    }
  }

  /** Lines 363-375: shifting left by less than a word. */
  lemma ShlSmall(lo: U64, hi: I64, n: nat)
    requires 0 < n < 64
    ensures 0 <= B64 - Pow2(64 - n)
    ensures var carry := And(lo, B64 - Pow2(64 - n)) / Pow2(64 - n);
            && carry >= 0
            && Val(ToU64(lo * Pow2(n)), ToI64(Or(ToU64(ToI64(hi * Pow2(n))), carry))) == Wrap(Val(lo, hi) * Pow2(n))
  {
    var p, q := Pow2(n), Pow2(64 - n);
    PowSplit(n);
    ShlMask(lo, n);
    var c := lo / q;
    assert q * p == B64;
    DivBelow(lo, q, p);
    ShlCarry(hi, n, c);
    ShlLow(lo, p, q);
    ToU64ToI64(hi * p);
    var k := ToU64Eq(hi * p);
    ShlSum(lo, hi, p, c, ToU64(hi * p), k);
  }

  /** The mask of line 368 and the shift of line 371 leave the top n bits. */
  lemma ShlMask(lo: U64, n: nat)
    requires 0 < n < 64
    ensures 0 <= B64 - Pow2(64 - n)
    ensures And(lo, B64 - Pow2(64 - n)) / Pow2(64 - n) == lo / Pow2(64 - n)
  {
    PowSplit(n);
    MaskIs(Pow2(n), Pow2(64 - n));
    MaskedHigh(lo, n, 64 - n, B64 - Pow2(64 - n));
    ShlMaskCore(lo, Pow2(n), Pow2(64 - n), And(lo, B64 - Pow2(64 - n)));
  }

  lemma MaskIs(p: int, q: int)
    requires p >= 1 && q >= 1 && p * q == B64
    ensures (p - 1) * q == B64 - q >= 0
  {
    MulNonNeg(p - 1, q);
    assert (p - 1) * q == p * q - q;
  }

  lemma MaskedHigh(x: nat, m: nat, k: nat, mask: nat)
    requires mask == (Pow2(m) - 1) * Pow2(k)
    ensures And(x, mask) == ((x / Pow2(k)) % Pow2(m)) * Pow2(k)
  {
    AndHigh(x, m, k);
  }

  lemma ShlMaskCore(lo: U64, p: int, q: int, m: int)
    requires p >= 1 && q >= 1 && p * q == B64 && m == ((lo / q) % p) * q
    ensures m / q == lo / q
  {
    assert q * p == B64;
    DivBelow(lo, q, p);
    DivUnique(lo / q, p, 0, lo / q);
    DivUnique((lo / q) * q, q, lo / q, 0);
  }

  lemma ToU64ToI64(x: int)
    ensures ToU64(ToI64(x)) == ToU64(x)
  {
    var k := ToI64Eq(x);
    var j := ToU64Eq(x);
    ToU64Unique(ToI64(x), ToU64(x), j - k);
  }

  lemma ShlCarry(hi: I64, n: nat, c: nat)
    requires 0 < n < 64 && c < Pow2(n)
    ensures Or(ToU64(ToI64(hi * Pow2(n))), c) == ToU64(hi * Pow2(n)) + c
  {
    var p, q := Pow2(n), Pow2(64 - n);
    PowSplit(n);
    ToU64ToI64(hi * p);
    ModOfMod(hi * p, p, q);
    DivUnique(hi * p, p, hi, 0);
    OrDisjoint(ToU64(hi * p), c, n);
  }

  lemma ShlLow(lo: U64, p: int, q: int)
    requires p > 0 && q > 0 && p * q == B64
    ensures ToU64(lo * p) == lo * p - (lo / q) * B64
  {
    DivMod(lo, q);
    ShlLowCore(lo, lo / q, lo % q, p, q);
  }

  lemma ShlLowCore(lo: int, c: int, r: int, p: int, q: int)
    requires p > 0 && q > 0 && p * q == B64 && lo == c * q + r && 0 <= r < q
    ensures ToU64(lo * p) == lo * p - c * B64
  {
    assert lo * p == c * (p * q) + r * p;
    assert q * p == B64;
    LowPart(r, q, p);
    ToU64Unique(lo * p, r * p, c);
  }

  lemma ShlSum(lo: U64, hi: I64, p: int, c: int, u: U64, k: int)
    requires u == hi * p - k * B64 && ToU64(lo * p) == lo * p - c * B64
    ensures Val(ToU64(lo * p), ToI64(u + c)) == Wrap(Val(lo, hi) * p)
  {
    var v := Val(ToU64(lo * p), ToI64(u + c));
    var j := ToI64Eq(u + c);
    assert Val(lo, hi) * p == (hi * p) * B64 + lo * p;
    WrapUnique(Val(lo, hi) * p, v, k + j);
  }

  /** Lines 357-361: shifting left by a word or more. */
  lemma ShlWord(lo: U64, hi: I64, n: nat)
    requires 64 <= n
    ensures Val(0, ToI64(ToU64(lo * Pow2(n - 64)))) == Wrap(Val(lo, hi) * Pow2(n))
  {
    var p := Pow2(n - 64);
    PowAdd(64, n - 64);
    PowConstants();
    var x := lo * p;
    var j := ToU64Eq(x);
    var k := ToI64Eq(ToU64(x));
    assert Val(lo, hi) * (B64 * p) == (hi * p) * B128 + x * B64;
    WrapUnique(Val(lo, hi) * Pow2(n), ToI64(ToU64(x)) * B64, hi * p + j + k);
  }

  lemma Commute(v: int, p: int)
    ensures v * (B128 * p) == (v * p) * B128
  {}

  lemma ShlAll(v: int, n: nat)
    requires 128 <= n
    ensures Wrap(v * Pow2(n)) == 0
  {
    var p := Pow2(n - 128);
    assert Pow2(n) == B128 * p by {
      PowAdd(128, n - 128);
      PowConstants();
    }
    Commute(v, p);
    WrapUnique(v * Pow2(n), 0, v * p);
  }

  /** Lines 204-209: addition with carry. */
  lemma AddWords(lo: U64, hi: I64, blo: U64, bhi: I64)
    ensures var l: int, h: int := ToU64(lo + blo), ToI64(hi + bhi);
            Val(l, if l < lo then ToI64(h + 1) else h) == Wrap(Val(lo, hi) + Val(blo, bhi))
  {
    var l: int, h: int := ToU64(lo + blo), ToI64(hi + bhi);
    var c := ToU64Eq(lo + blo);
    var j := ToI64Eq(hi + bhi);
    var k := ToI64Eq(h + 1);
    if l < lo {
      WrapUnique(Val(lo, hi) + Val(blo, bhi), Val(l, ToI64(h + 1)), j + k);
    } else {
      WrapUnique(Val(lo, hi) + Val(blo, bhi), Val(l, h), j);
    }
  }

  /** Lines 162-165: negation. */
  lemma NegWords(lo: U64, hi: I64)
    ensures lo == 0 ==> Val(0, ToI64(0 - hi)) == Wrap(0 - Val(lo, hi))
    ensures lo != 0 ==> Val(ToU64(0 - lo), -1 - hi) == Wrap(0 - Val(lo, hi))
  {
    var j := ToU64Eq(0 - lo);
    var k := ToI64Eq(0 - hi);
    if lo == 0 {
      WrapUnique(0 - Val(lo, hi), Val(0, ToI64(0 - hi)), k);
    }
  }

  // ---- single bits -----------------------------------------------------------------------

  /** Lines 289-298: bit n of the two's complement value. */
  predicate BitOf(v: int, n: nat) {
    (v / Pow2(n)) % 2 == 1
  }

  lemma BitAbove(lo: U64, hi: I64, n: nat)
    requires 128 <= n
    ensures hi < 0 <==> BitOf(Val(lo, hi), n)
  {
    ShrAll(lo, hi, n);
  }

  lemma BitHigh(lo: U64, hi: I64, n: nat)
    requires 64 <= n < 128
    ensures BitAt(ToU64(hi), n - 64) <==> BitOf(Val(lo, hi), n)
  {
    BitOfPair(lo, hi, n);
    BitOfHigh(hi, n - 64);
  }

  lemma BitLow(lo: U64, hi: I64, n: nat)
    requires n < 64
    ensures BitAt(lo, n) <==> BitOf(Val(lo, hi), n)
  {
    BitOfLow(lo, hi, n);
  }

  lemma BitOfPair(lo: U64, hi: I64, n: nat)
    requires 64 <= n
    ensures Val(lo, hi) / Pow2(n) == hi / Pow2(n - 64)
  {
    PowAdd(64, n - 64);
    PowConstants();
    DivUnique(Val(lo, hi), B64, hi, lo);
    DivDiv(Val(lo, hi), B64, Pow2(n - 64));
  }

  lemma BitOfLow(lo: U64, hi: I64, n: nat)
    requires n < 64
    ensures (Val(lo, hi) / Pow2(n)) % 2 == (lo / Pow2(n)) % 2
  {
    PowSplit(n);
    BitOfSum(lo, hi, Pow2(n), Pow2(63 - n));
  }

  /** Adding a multiple of 2^64 does not change a lower bit. */
  lemma BitOfSum(u: int, k: int, p: int, half: int)
    requires p > 0 && p * (2 * half) == B64
    ensures ((k * B64 + u) / p) % 2 == (u / p) % 2
  {
    DivMod(u, p);
    BitOfSumCore(u, u / p, u % p, k, p, half);
    DivUnique(k * B64 + u, p, 2 * (k * half) + u / p, u % p);
    EvenPart(k * half, u / p);
  }

  lemma BitOfSumCore(u: int, y: int, r: int, k: int, p: int, half: int)
    requires p * (2 * half) == B64 && u == y * p + r
    ensures k * B64 + u == (2 * (k * half) + y) * p + r
  {
    assert k * B64 == (2 * (k * half)) * p;
  }

  lemma LowestBit(lo: U64, hi: I64)
    ensures Val(lo, hi) % 2 == lo % 2
  {
    EvenPart(hi * B63, lo);
  }

  lemma EvenPart(e: int, x: int)
    ensures (2 * e + x) % 2 == x % 2
  {}

  lemma BitOfHigh(hi: I64, m: nat)
    requires m < 64
    ensures (ToU64(hi) / Pow2(m)) % 2 == (hi / Pow2(m)) % 2
  {
    PowSplit(m);
    var k := ToU64Eq(hi);
    BitOfSum(ToU64(hi), k, Pow2(m), Pow2(63 - m));
  }

  /** Lines 305-316: a word with bit n set or cleared. */
  function WordWithBit(w: U64, n: nat, val: bool): (r: nat)
    requires n < 64
    ensures r < B64
  {
    WordBit(w, n, val);
    if val then Or(w, Pow2(n)) else And(w, B64 - 1 - Pow2(n))
  }

  lemma WordBit(w: U64, n: nat, val: bool)
    requires n < 64
    ensures 0 <= B64 - 1 - Pow2(n)
    ensures var r := if val then Or(w, Pow2(n)) else And(w, B64 - 1 - Pow2(n));
            && 0 <= r < B64
            && r == if BitAt(w, n) == val then w else if val then w + Pow2(n) else w - Pow2(n)
  {
    assert Pow2(64) == B64 by { PowConstants(); }
    AndClearBit(w, n, 64);
    if BitAt(w, n) {
      OrSetBit(w, n);
      BitWeight(w, n);
    } else {
      OrBit(w, n);
      ClearBitFits(w, n, 64);
    }
  }

  lemma BitWeight(x: nat, n: nat)
    requires BitAt(x, n)
    ensures Pow2(n) <= x
  {
    if x < Pow2(n) { DivUnique(x, Pow2(n), 0, x); }
  }

  /** The value with bit n set or cleared; there is no bit above 127. */
  function WithBit(v: int, n: nat, val: bool): (r: int) {
    if n >= 128 || BitOf(v, n) == val then v
    else Wrap(if val then v + Pow2(n) else v - Pow2(n))
  }

  lemma LowWordBit(lo: U64, hi: I64, n: nat, val: bool)
    requires n < 64
    ensures Val(WordWithBit(lo, n, val), hi) == WithBit(Val(lo, hi), n, val)
  {
    WordBit(lo, n, val);
    BitLow(lo, hi, n);
    WrapSmall(Val(WordWithBit(lo, n, val), hi));
  }

  lemma HighWordBit(lo: U64, hi: I64, n: nat, val: bool)
    requires 64 <= n < 128
    ensures Val(lo, ToI64(WordWithBit(ToU64(hi), n - 64, val))) == WithBit(Val(lo, hi), n, val)
  {
    var p, w := Pow2(n - 64), WordWithBit(ToU64(hi), n - 64, val);
    WordBit(ToU64(hi), n - 64, val);
    BitHigh(lo, hi, n);
    HighWeight(n);
    var j := ToU64Eq(hi);
    var k := ToI64Eq(w);
    var change := if BitAt(ToU64(hi), n - 64) == val then 0 else if val then 1 else -1;
    HighWordCore(lo, hi, ToI64(w), p, change, j + k);
    WrapUnique(Val(lo, hi) + change * Pow2(n), Val(lo, ToI64(w)), j + k);
    if change == 0 { WrapSmall(Val(lo, hi)); }
  }

  lemma HighWordCore(lo: int, hi: int, hi': int, p: int, change: int, k: int)
    requires hi' == hi + change * p - k * B64
    ensures hi' * B64 + lo == hi * B64 + lo + change * (B64 * p) - k * B128
  {
    assert (change * p) * B64 == change * (B64 * p);
    assert (k * B64) * B64 == k * B128;
  }

  lemma HighWeight(n: nat)
    requires 64 <= n
    ensures Pow2(n) == B64 * Pow2(n - 64)
  {
    PowAdd(64, n - 64);
    PowConstants();
  }

  /** A word below 2^w with bit n clear stays below 2^w when the bit is set. */
  lemma ClearBitFits(x: nat, n: nat, w: nat)
    requires n < w && x < Pow2(w) && (x / Pow2(n)) % 2 == 0
    ensures x + Pow2(n) < Pow2(w)
  {
    var p, half := Pow2(n), Pow2(w - n - 1);
    PowAdd(n, w - n);
    assert Pow2(w) == p * (2 * half);
    DivBelow(x, p, 2 * half);
    DivMod(x, p);
    ClearBitCore(x, x / p, x % p, p, half);
  }

  lemma ClearBitCore(x: int, y: int, r: int, p: int, half: int)
    requires p > 0 && x == y * p + r && 0 <= r < p && y % 2 == 0 && 0 <= y < 2 * half
    ensures x + p < p * (2 * half)
  {
    MulNonNeg(2 * half - 2 - y, p);
    assert (2 * half - 2 - y) * p == p * (2 * half) - 2 * p - y * p;
  }
}
