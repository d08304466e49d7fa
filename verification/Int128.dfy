/**
 inet::Int128: a signed 128-bit integer kept as an unsigned low and a signed high word
 that the operators update in place. Every operator is proved against arithmetic on the
 value the two words stand for.
 */
module Int128s {
  import opened Options
  import opened Binary
  import opened Int128Words
  import opened Widths
  import opened Int128Shifts
  import opened Int128Text

  const MIN_VALUE: int := -B127

  /** operator<, lines 380-390. */
  predicate LessWords(alo: U64, ahi: I64, blo: U64, bhi: I64) {
    if ahi == bhi then
      if ahi < 0 then ToI64(alo) < ToI64(blo) else alo < blo
    else ahi < bhi
  }

  /** The comparison is the order of the values exactly when it is not asked about two
      negative numbers with equal high words whose low words differ in their top bit. */
  lemma LessExactWhen(alo: U64, ahi: I64, blo: U64, bhi: I64)
    ensures (LessWords(alo, ahi, blo, bhi) <==> Val(alo, ahi) < Val(blo, bhi)) <==>
            !(ahi == bhi < 0 && (alo < B63) != (blo < B63))
  {}

  /** The failing family is not empty: -1 < -2^64 with equal high words. */
  lemma LessFails()
    ensures LessWords(B64 - 1, -1, 0, -1) && Val(B64 - 1, -1) > Val(0, -1)
  {}

  /** Truncated division, the meaning of C++'s / and % on built-in integers. */
  ghost predicate TruncatedDivision(n: int, d: int, q: int, r: int)
    requires d != 0
  {
    && n == q * d + r && Abs(r) < Abs(d) && (r == 0 || (r < 0 <==> n < 0))
  }

  function Abs(x: int): nat {
    if x < 0 then -x else x
  }

  class Int128 {
    var lo: U64
    var hi: I64

    function Value(): int
      reads this
    {
      Val(lo, hi)
    }

    constructor (lo: U64, hi: I64)
      ensures this.lo == lo && this.hi == hi
    {
      this.lo, this.hi := lo, hi;
    }

    /** Construction from a built-in integer, sign extended. */
    constructor Of(a: int)
      requires -B63 <= a < B64
      ensures Value() == a
    {
      lo := ToU64(a);
      hi := if a < 0 then -1 else 0;
    }

    method Assign(other: Int128)
      modifies this
      ensures lo == other.lo && hi == other.hi && Value() == old(other.Value())
    {
      lo, hi := other.lo, other.hi;
    }

    predicate IsZero()
      reads this
      ensures IsZero() <==> Value() == 0
    {
      hi == 0 && lo == 0
    }

    predicate Less(b: Int128)
      reads this, b
      ensures Value() >= 0 || b.Value() >= 0 ==> (Less(b) <==> Value() < b.Value())
      ensures (Less(b) <==> Value() < b.Value()) <==> !(hi == b.hi < 0 && (lo < B63) != (b.lo < B63))
    {
      LessExactWhen(lo, hi, b.lo, b.hi);
      LessWords(lo, hi, b.lo, b.hi)
    }

    predicate IsNegative()
      reads this
      ensures IsNegative() <==> Value() < 0
    {
      LessExactWhen(lo, hi, 0, 0);
      LessWords(lo, hi, 0, 0)
    }

    method Neg() returns (r: Int128)
      ensures fresh(r) && r.Value() == Wrap(0 - Value())
    {
      NegWords(lo, hi);
      if lo == 0 {
        r := new Int128(0, ToI64(0 - hi));
      } else {
        r := new Int128(ToU64(0 - lo), -1 - hi);
      }
    }

    /** +=, also when b is this very object. */
    method AddAssign(b: Int128)
      modifies this
      ensures Value() == Wrap(old(Value()) + old(b.Value()))
    {
      AddWords(lo, hi, b.lo, b.hi);
      var oldLo := lo;
      lo := ToU64((lo as int) + b.lo);
      hi := ToI64((hi as int) + b.hi);
      if lo < oldLo {
        hi := ToI64((hi as int) + 1);
      }
    }

    /** -=: adds the negation. */
    method SubAssign(b: Int128)
      modifies this
      ensures Value() == Wrap(old(Value()) - old(b.Value()))
    {
      var n := b.Neg();
      WrapAdd(Value(), 0 - b.Value());
      AddAssign(n);
    }

    /** <<=: multiplication by 2^n, for every n. */
    method ShlAssign(n: nat)
      modifies this
      ensures Value() == Wrap(old(Value()) * Pow2(n))
    {
      if n >= 128 {
        ShlAll(Value(), n);
        lo, hi := 0, 0;
        return;
      }
      if n >= 64 {
        ShlWord(lo, hi, n);
        hi := ToI64(ToU64(lo * Pow2(n - 64)));
        lo := 0;
        return;
      }
      if n != 0 {
        ShlSmall(lo, hi, n);
        hi := ToI64(hi * Pow2(n));
        var mask := B64 - Pow2(64 - n);
        hi := ToI64(Or(ToU64(hi), And(lo, mask) / Pow2(64 - n)));
        lo := ToU64(lo * Pow2(n));
      } else {
        WrapSmall(Value());
      }
    }

    /** >>=: floor division by 2^n, for every n. */
    method ShrAssign(n: nat)
      modifies this
      ensures Value() == old(Value()) / Pow2(n)
    {
      if n >= 128 {
        ShrAll(lo, hi, n);
        hi := if hi < 0 then -1 else 0;
        lo := ToU64(hi);
        return;
      }
      if n >= 64 {
        ShrWord(lo, hi, n);
        lo := ToU64(hi / Pow2(n - 64));
        hi := if hi < 0 then -1 else 0;
        return;
      }
      if n != 0 { ShrWithin(n); }
    }

    /** Lines 333-345: the low bits of the high word move into the low word. */
    method ShrWithin(n: nat)
      requires 0 < n < 64
      modifies this
      ensures Value() == old(Value()) / Pow2(n)
    {
      ShrSmall(lo, hi, n);
      lo, hi := Or(lo / Pow2(n), And(ToU64(hi), Pow2(n) - 1) * Pow2(64 - n)), hi / Pow2(n);
    }

    /** a << i as a new object. */
    method Shl(n: nat) returns (r: Int128)
      ensures fresh(r) && r.Value() == Wrap(Value() * Pow2(n))
    {
      r := new Int128(lo, hi);
      r.ShlAssign(n);
    }

    /** bit(n): bit n of the two's complement value, the sign above bit 127. */
    method Bit(n: nat) returns (b: bool)
      ensures b <==> BitOf(Value(), n)
    {
      if n >= 128 {
        BitAbove(lo, hi, n);
        return hi < 0;
      }
      if n < 64 {
        BitLow(lo, hi, n);
        return BitAt(lo, n);
      } else {
        BitHigh(lo, hi, n);
        return BitAt(ToU64(hi), n - 64);
      }
    }

    /** bit(n, val), for every bit of every number. */
    method SetBit(n: nat, val: bool)
      modifies this
      ensures Value() == WithBit(old(Value()), n, val)
    {
      if n >= 128 { return; }
      if n < 64 {
        LowWordBit(lo, hi, n, val);
        lo := WordWithBit(lo, n, val);
      } else {
        HighWordBit(lo, hi, n, val);
        hi := ToI64(WordWithBit(ToU64(hi), n - 64, val));
      }
    }

    /** r.lo |= 1 on an even number. */
    method SetLowestBit()
      requires Value() % 2 == 0
      modifies this
      ensures Value() == old(Value()) + 1
    {
      LowestBit(lo, hi);
      assert Pow2(1) == 2;
      OrDisjoint(lo, 1, 1);
      lo := Or(lo, 1);
    }

    /** Lines 228-231. */
    method MulRound(a: Int128, t: Int128, i: nat, ghost shifted: int)
      requires a != t && a != this && t != this && shifted == Wrap(a.Value() * Pow2(i))
      modifies this, t
      ensures t.Value() == old(t.Value()) / Pow2(1)
      ensures Value() == if old(t.Value()) % 2 == 1 then Wrap(old(Value()) + shifted) else old(Value())
    {
      LowestBit(t.lo, t.hi);
      if t.lo % 2 == 1 {
        var s := a.Shl(i);
        AddAssign(s);
      }
      t.ShrAssign(1);
    }

    /** *=: 128 rounds of shift and add. */
    method MulAssign(b: Int128)
      modifies this
      ensures Value() == Wrap(old(Value()) * old(b.Value()))
    {
      ghost var x, y := Value(), b.Value();
      if b.IsZero() {
        assert x * y == 0;
        lo, hi := 0, 0;
        return;
      }
      if b.hi == 0 && b.lo == 1 {
        assert x * y == x;
        WrapSmall(x);
        return;
      }
      var a := new Int128(lo, hi);
      var t := new Int128(b.lo, b.hi);
      lo, hi := 0, 0;
      DivUnique(y, 1, y, 0);
      assert x * 0 == 0;
      for i := 0 to 128
        invariant fresh(a) && fresh(t) && a != t && a.Value() == x && t.Value() == y / Pow2(i)
        invariant Value() == Wrap(x * (y % Pow2(i)))
      {
        MulStep(x, y, i);
        MulRound(a, t, i, Wrap(x * Pow2(i)));
      }
      MulDone(x, y);
    }

    /** Absolute value as div forms it: exact unless the number is MIN_VALUE, which negates to itself. */
    method Magnitude() returns (m: Int128)
      ensures fresh(m) && m.Value() == if Value() == MIN_VALUE then MIN_VALUE else Abs(Value())
    {
      if IsNegative() {
        if Value() != MIN_VALUE { WrapSmall(0 - Value()); }
        m := Neg();
      } else {
        m := new Int128(lo, hi);
      }
    }

    /** r <<= 1 without overflow. */
    method Double()
      requires 0 <= 2 * Value() < B127
      modifies this
      ensures Value() == 2 * old(Value()) && Value() % 2 == 0
    {
      assert Pow2(1) == 2;
      WrapSmall(Value() * 2);
      EvenPart(Value(), 0);
      ShlAssign(1);
    }

    /** r <<= 1, then bit b of dd enters at the bottom. */
    method ShiftIn(dd: Int128, b: nat)
      requires dd != this && 0 <= Value() && 2 * Value() + BitValue(dd.Value(), b) < B127
      modifies this
      ensures Value() == 2 * old(Value()) + BitValue(old(dd.Value()), b)
    {
      Double();
      var bit := dd.Bit(b);
      if bit { SetLowestBit(); }
    }

    /** Lines 253-263: read dd from the top until the prefix reaches ds. */
    static method FirstPrefix(ds: Int128, dd: Int128) returns (r: Int128, b: nat)
      requires 0 < ds.Value() <= dd.Value()
      ensures fresh(r) && b <= 127 && r.Value() == dd.Value() / Pow2(b)
      ensures ds.Value() <= r.Value() < 2 * ds.Value()
    {
      ghost var n, d := dd.Value(), ds.Value();
      r := new Int128(0, 0);
      var i := 127;
      PowConstants();
      DivUnique(n, B128, 0, n);
      DivUnique(n, 1, n, 0);
      while r.Less(ds)
        invariant fresh(r) && -1 <= i <= 127 && r.Value() == n / Pow2(i + 1)
        invariant 0 <= r.Value() < 2 * d
        decreases i + 1
      {
        PrefixStep(n, i);
        r.ShiftIn(dd, i);
        i := i - 1;
      }
      b := i + 1;
    }

    /** Lines 274-276: the divisor is subtracted and the quotient bit set. */
    static method SubtractOnce(ds: Int128, q: Int128, r: Int128, b: nat, ghost n: int)
      requires q != r && q != ds && r != ds && ds.Value() <= r.Value()
      requires LongDivideInv(n, ds.Value(), q.Value(), r.Value(), b)
      modifies q, r
      ensures LongDivideInv(n, ds.Value(), q.Value(), r.Value(), b) && r.Value() < ds.Value()
    {
      LongDivideSubtract(n, ds.Value(), q.Value(), r.Value(), b);
      WrapSmall(r.Value() - ds.Value());
      WrapSmall(q.Value() + Pow2(b));
      r.SubAssign(ds);
      q.SetBit(b, true);
    }

    /** Lines 265-277: one subtraction per quotient bit. */
    static method LongDivide(ds: Int128, dd: Int128) returns (q: Int128, r: Int128)
      requires 0 < ds.Value() <= dd.Value()
      ensures fresh(q) && fresh(r) && q != r
      ensures 0 <= r.Value() < ds.Value() && 0 <= q.Value()
      ensures dd.Value() == q.Value() * ds.Value() + r.Value()
    {
      ghost var n, d := dd.Value(), ds.Value();
      var b;
      r, b := FirstPrefix(ds, dd);
      q := new Int128(0, 0);
      LongDivideStart(n, d, r.Value(), b);
      while true
        invariant fresh(q) && fresh(r) && q != r && b <= 127
        invariant LongDivideInv(n, d, q.Value(), r.Value(), b)
        decreases b, if r.Value() >= d then 1 else 0
      {
        if r.Less(ds) {
          if b == 0 {
            break;
          }
          LongDivideShift(n, d, q.Value(), r.Value(), b);
          b := b - 1;
          r.ShiftIn(dd, b);
        } else {
          SubtractOnce(ds, q, r, b, n);
        }
      }
      LongDivideEnd(n, d, q.Value(), r.Value());
    }

    /** div: truncated division, except that MIN_VALUE is always its own remainder. `remainder`
        may be this object, as in %=. A divisor of MIN_VALUE makes the source loop forever. */
    method Div(divisor: Int128, remainder: Int128) returns (q: Int128)
      requires divisor.Value() != 0 && divisor.Value() != MIN_VALUE
      modifies remainder
      ensures fresh(q)
      ensures TruncatedDivision(old(Value()), old(divisor.Value()), q.Value(), remainder.Value())
              <==> old(Value()) != MIN_VALUE
      ensures old(Value()) == MIN_VALUE ==> q.Value() == 0 && remainder.Value() == MIN_VALUE
    {
      ghost var n, d := Value(), divisor.Value();
      var ds := divisor.Magnitude();
      var dd := Magnitude();
      if dd.Less(ds) {
        remainder.Assign(this);
        q := new Int128(0, 0);
        return;
      }
      var r;
      q, r := LongDivide(ds, dd);
      SignedResult(n, d, q.Value(), r.Value());
      q := q.NegIf(divisor.IsNegative() != IsNegative());
      r := r.NegIf(IsNegative());
      remainder.Assign(r);
    }

    /** Lines 280-283: a result with its sign. */
    method NegIf(negative: bool) returns (r: Int128)
      requires 0 <= Value()
      ensures r == this || fresh(r)
      ensures r.Value() == if negative then -Value() else Value()
    {
      r := this;
      if negative {
        WrapSmall(0 - Value());
        r := Neg();
      }
    }

    /** /= */
    method DivAssign(b: Int128)
      requires b.Value() != 0 && b.Value() != MIN_VALUE
      modifies this
      ensures Value() == if old(Value()) == MIN_VALUE then 0 else TruncQuotient(old(Value()), old(b.Value()))
    {
      ghost var n, d := Value(), b.Value();
      var dummy := new Int128(0, 0);
      var q := Div(b, dummy);
      if n != MIN_VALUE { TruncatedUnique(n, d, q.Value(), dummy.Value()); }
      Assign(q);
    }

    /** %=: the remainder is written back into this object by div itself. */
    method ModAssign(b: Int128)
      requires b.Value() != 0 && b.Value() != MIN_VALUE
      modifies this
      ensures Value() == if old(Value()) == MIN_VALUE then MIN_VALUE
                         else old(Value()) - TruncQuotient(old(Value()), old(b.Value())) * old(b.Value())
    {
      ghost var n, d := Value(), b.Value();
      var q := Div(b, this);
      if n != MIN_VALUE { TruncatedUnique(n, d, q.Value(), Value()); }
    }

    /** Lines 53-54: quotient and least significant digit. */
    method SplitDigit(radix: nat) returns (q: Int128, c: nat)
      requires 2 <= radix <= 37 && (0 <= Value() || Value() == MIN_VALUE)
      ensures fresh(q)
      ensures 0 <= Value() ==> q.Value() == Value() / radix && c == Value() % radix
      ensures Value() == MIN_VALUE ==> q.Value() == 0 && c == 0
    {
      var aux := new Int128.Of(radix);
      var r := new Int128(0, 0);
      ghost var v := Value();
      q := Div(aux, r);
      if v != MIN_VALUE {
        TruncatedUnique(v, radix, q.Value(), r.Value());
        DivMod(v, radix);
      }
      SmallWordOf(r.lo, r.hi);
      c := r.lo;
    }

    /** toString: the numeral, built from the end of a 256-byte buffer that never fills. */
    method ToString(radix: nat) returns (s: string)
      ensures s == Print(Value(), radix)
    {
      ghost var v := Value();
      if IsZero() {
        return "0";
      }
      if radix < 2 || radix > 37 {
        return "(invalid radix)";
      }
      var sz := new char[256];
      var ii := Magnitude();
      var i := 255;
      PrintStart(v, ii.Value(), sz[255..255], radix);
      while !ii.IsZero() && i != 0
        invariant fresh(ii) && fresh(sz) && 128 <= i <= 255
        invariant PrintInv(v, ii.Value(), sz[i..255], radix)
        decreases i
      {
        PrintStep(v, ii.Value(), sz[i..255], radix);
        var c;
        ii, c := ii.SplitDigit(radix);
        i := PutBefore(sz, i, DigitChar(c));
      }
      if IsNegative() { i := PutBefore(sz, i, '-'); }
      s := sz[i..255];
    }

    /** sz[--i] = c. */
    static method PutBefore(sz: array<char>, i: nat, c: char) returns (j: nat)
      requires 0 < i <= 255 < sz.Length
      modifies sz
      ensures j == i - 1 && sz[j..255] == [c] + old(sz[i..255])
    {
      j := i - 1;
      sz[j] := c;
    }

    /** set: decimal, octal after 0, hexadecimal after 0x. */
    method Set(sz: string)
      modifies this
      ensures Value() == ParseValue(sz)
    {
      lo, hi := 0, 0;
      if sz == "" {
        return;
      }
      var radix, i, minus := 10, 0, false;
      if sz[i] == '-' {
        i := i + 1;
        minus := true;
      }
      if i < |sz| && sz[i] == '0' {
        radix := 8;
        i := i + 1;
        if i < |sz| && sz[i] == 'x' {
          radix := 16;
          i := i + 1;
        }
      }
      assert Prefix(sz) == (minus, radix, i);
      ghost var total := ParseDigits(sz[i..], radix, 0);
      ghost var acc := 0;
      while i < |sz|
        invariant 0 <= i <= |sz| && radix <= 16 && Value() == Wrap(acc)
        invariant ParseDigits(sz[i..], radix, acc) == total
      {
        var n := DigitOf(sz[i], radix);
        if n.None? {
          break;
        }
        assert sz[i..][0] == sz[i] && sz[i..][1..] == sz[i + 1..];
        PushDigit(radix, n.value, acc);
        acc := acc * radix + n.value;
        i := i + 1;
      }
      assert acc == total;
      if minus {
        var zero := new Int128(0, 0);
        zero.SubAssign(this);
        WrapNeg(total);
        Assign(zero);
      }
    }

    /** Lines 101-102. */
    method PushDigit(radix: nat, n: nat, ghost acc: int)
      requires radix <= 16 && n <= 16 && Value() == Wrap(acc)
      modifies this
      ensures Value() == Wrap(acc * radix + n)
    {
      var r := new Int128.Of(radix);
      var d := new Int128.Of(n);
      MulAssign(r);
      ghost var product := Value();
      AddAssign(d);
      PushedDigit(acc, radix, n, product);
    }
  }

  lemma PushedDigit(acc: int, radix: int, n: int, product: int)
    requires product == Wrap(Wrap(acc) * radix)
    ensures Wrap(product + n) == Wrap(acc * radix + n)
  {
    WrapMul(acc, radix);
    WrapSum(acc * radix, n);
  }

  lemma WrapSum(a: int, b: int)
    ensures Wrap(Wrap(a) + b) == Wrap(a + b)
  {
    WrapAdd(a, b);
  }

  lemma WrapNeg(t: int)
    ensures Wrap(0 - Wrap(t)) == Wrap(0 - t)
  {
    var j := WrapDiffers(t);
    var k := WrapDiffers(0 - t);
    WrapUnique(0 - Wrap(t), Wrap(0 - t), j + k);
  }

  lemma SmallWordOf(lo: U64, hi: I64)
    ensures 0 <= Val(lo, hi) < B64 ==> lo == Val(lo, hi)
    ensures Val(lo, hi) == MIN_VALUE ==> lo == 0
  {}

  /** The digits already written and the number still to be written. */
  ghost predicate PrintInv(v: int, ii: int, tail: string, radix: nat)
    requires 2 <= radix <= 37
  {
    if v == MIN_VALUE then (tail == "" && ii == MIN_VALUE) || (tail == "0" && ii == 0)
    else 0 <= ii && |tail| <= 127 && ii < Pow2(127 - |tail|) && Digits(Abs(v), radix) == Digits(ii, radix) + tail
  }

  lemma PrintStart(v: int, ii: int, tail: string, radix: nat)
    requires 2 <= radix <= 37 && -B127 <= v < B127 && ii == (if v == MIN_VALUE then MIN_VALUE else Abs(v))
    requires |tail| == 0
    ensures PrintInv(v, ii, tail, radix)
  {
    PowConstants();
  }

  lemma PrintStep(v: int, ii: int, tail: string, radix: nat)
    requires 2 <= radix <= 37 && PrintInv(v, ii, tail, radix) && ii != 0
    ensures |tail| < 127
    ensures ii == MIN_VALUE ==> PrintInv(v, 0, [DigitChar(0)] + tail, radix)
    ensures ii > 0 ==> 0 <= ii % radix < 37 && PrintInv(v, ii / radix, [DigitChar(ii % radix)] + tail, radix)
  {
    if v != MIN_VALUE {
      HalfOfPower(ii, radix, 127 - |tail|);
      var c := [DigitChar(ii % radix)];
      assert Digits(ii / radix, radix) + c + tail == Digits(ii / radix, radix) + (c + tail);
    }
  }

  /** The quotient rounded towards zero. */
  function TruncQuotient(n: int, d: int): int
    requires d != 0
  {
    if (n < 0) == (d < 0) then Abs(n) / Abs(d) else -(Abs(n) / Abs(d))
  }

  lemma SignedResult(n: int, d: int, q: int, r: int)
    requires d != 0 && 0 <= r < Abs(d) && 0 <= q && Abs(n) == q * Abs(d) + r && Abs(n) < B127
    ensures q < B127 && r < B127
    ensures TruncatedDivision(n, d, if (d < 0) != (n < 0) then 0 - q else q, if n < 0 then 0 - r else r)
  {
    MulGrows(q, Abs(d));
    assert (0 - q) * d == -(q * d) == q * (0 - d);
  }

  /** Truncated division determines quotient and remainder. */
  lemma TruncatedUnique(n: int, d: int, q: int, r: int)
    requires d != 0 && TruncatedDivision(n, d, q, r)
    ensures q == TruncQuotient(n, d) && r == n - TruncQuotient(n, d) * d
  {
    var q' := if (n < 0) == (d < 0) then q else -q;
    assert (-q) * d == -(q * d) == q * (-d);
    assert Abs(n) == q' * Abs(d) + Abs(r);
    DivUnique(Abs(n), Abs(d), q', Abs(r));
  }

  /** Bit b as a number. */
  function BitValue(v: int, b: nat): nat {
    if BitOf(v, b) then 1 else 0
  }

  /** Appending the next lower bit to a prefix gives the next longer prefix. */
  lemma PrefixStep(n: int, i: nat)
    requires 0 <= n < B127
    ensures n / Pow2(i) == 2 * (n / Pow2(i + 1)) + BitValue(n, i)
    ensures 0 <= n / Pow2(i) <= n
  {
    var p := Pow2(i);
    assert Pow2(i + 1) == p * 2;
    DivDiv(n, p, 2);
    DivShrinks(n, p);
  }

  /** The division equation with the low b bits of n still unread. */
  ghost predicate LongDivideInv(n: int, d: int, q: int, r: int, b: nat) {
    && 0 <= q && 0 <= r < 2 * d && 0 < d && 0 <= n < B127
    && n == q * d + r * Pow2(b) + n % Pow2(b)
    && q % Pow2(if r >= d then b + 1 else b) == 0
  }

  lemma LongDivideStart(n: int, d: int, r: int, b: nat)
    requires 0 < d <= n < B127 && r == n / Pow2(b) && d <= r < 2 * d
    ensures LongDivideInv(n, d, 0, r, b)
  {
    DivMod(n, Pow2(b));
    DivUnique(0, Pow2(b + 1), 0, 0);
  }

  lemma LongDivideShift(n: int, d: int, q: int, r: int, b: nat)
    requires LongDivideInv(n, d, q, r, b) && r < d && b > 0
    ensures var r' := 2 * r + BitValue(n, b - 1); r' < B127 && LongDivideInv(n, d, q, r', b - 1)
  {
    var p, bit := Pow2(b - 1), BitValue(n, b - 1);
    DivDiv(n, p, 2);
    assert Pow2(b) == p * 2;
    var m := n % p;
    DivMod(n, p);
    assert n % Pow2(b) == bit * p + m;
    ShiftCore(n, d, q, r, p, bit, m);
    QuotientBits(q, b);
  }

  lemma ShiftCore(n: int, d: int, q: int, r: int, p: int, bit: int, m: int)
    requires n == q * d + r * (p * 2) + (bit * p + m) && p >= 1 && 0 <= m && 0 <= q && 0 < d && 0 <= r && 0 <= bit <= 1
    ensures n == q * d + (2 * r + bit) * p + m && 2 * r + bit <= n
  {
    assert r * (p * 2) + bit * p == (2 * r + bit) * p;
    MulNonNeg(q, d);
    MulGrows(2 * r + bit, p);
  }

  /** A multiple of 2^b is one of every lower power. */
  lemma QuotientBits(q: int, b: nat)
    requires b > 0 && q % Pow2(b) == 0
    ensures q % Pow2(b - 1) == 0
  {
    DivDiv(q, Pow2(b - 1), 2);
    DivMod(q, Pow2(b - 1));
    var y, m := (q / Pow2(b - 1)) % 2, q % Pow2(b - 1);
    MulNonNeg(y, Pow2(b - 1));
  }

  lemma LongDivideSubtract(n: int, d: int, q: int, r: int, b: nat)
    requires LongDivideInv(n, d, q, r, b) && r >= d
    ensures b < 127 && !BitOf(q, b) && q + Pow2(b) < B127 && LongDivideInv(n, d, q + Pow2(b), r - d, b)
  {
    var p := Pow2(b);
    DivMod(n, p);
    SubtractCore(n, d, q, r, p, n % p);
    QuotientFits(n, d, q + p, (r - d) * p + n % p, r - d, p, n % p);
    if b >= 127 {
      PowConstants();
      PowMono(127, b);
      assert false;
    }
    DivDiv(q, p, 2);
    assert Pow2(b + 1) == p * 2;
    SubtractBits(q, p);
  }

  lemma QuotientFits(n: int, d: int, q: int, rest: int, r: int, p: int, m: int)
    requires n == q * d + rest && rest == r * p + m && 0 <= r && 1 <= p && 0 <= m && 0 < d && 0 <= q
    ensures q <= n
  {
    MulNonNeg(r, p);
    MulGrows(q, d);
  }

  lemma SubtractCore(n: int, d: int, q: int, r: int, p: int, m: int)
    requires n == q * d + r * p + m && 0 < d <= r && p >= 1 && 0 <= q && 0 <= m
    ensures n == (q + p) * d + (r - d) * p + m && p <= n
  {
    assert (q + p) * d + (r - d) * p == q * d + r * p;
    MulNonNeg(q, d);
    MulGrows(p, r);
    assert r * p == p * r;
  }

  lemma SubtractBits(q: int, p: int)
    requires p >= 1 && q % (p * 2) == 0 && q % (p * 2) == ((q / p) % 2) * p + q % p
    ensures (q / p) % 2 == 0 && (q + p) % p == 0
  {
    DivMod(q, p);
    MulNonNeg((q / p) % 2, p);
    assert q % p == 0;
    DivUnique(q + p, p, q / p + 1, 0);
  }

  lemma LongDivideEnd(n: int, d: int, q: int, r: int)
    requires LongDivideInv(n, d, q, r, 0)
    ensures n == q * d + r
  {
    DivUnique(n, 1, n, 0);
  }

  /** One more bit of the multiplier. */
  lemma MulStep(x: int, y: int, i: nat)
    ensures (y / Pow2(i)) / Pow2(1) == y / Pow2(i + 1)
    ensures (y / Pow2(i)) % 2 == 0 ==> y % Pow2(i + 1) == y % Pow2(i)
    ensures (y / Pow2(i)) % 2 == 1 ==>
              Wrap(Wrap(x * (y % Pow2(i))) + Wrap(x * Pow2(i))) == Wrap(x * (y % Pow2(i + 1)))
  {
    var p := Pow2(i);
    assert Pow2(1) == 2 && Pow2(i + 1) == p * 2;
    DivDiv(y, p, 2);
    WrapAdd(x * (y % p), x * p);
    assert x * (y % p) + x * p == x * (y % p + p);
  }

  lemma MulDone(x: int, y: int)
    ensures Wrap(x * (y % Pow2(128))) == Wrap(x * y)
  {
    PowConstants();
    var k := y / B128;
    assert y == k * B128 + y % B128;
    assert x * y == (x * k) * B128 + x * (y % B128);
    var j := WrapDiffers(x * (y % B128));
    WrapUnique(x * y, Wrap(x * (y % B128)), x * k + j);
  }
}
