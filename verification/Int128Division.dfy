/**
 When Int128::div is truncated division. Its second loop is followed turn by turn on the
 values of the words, so that a division that does not end can be talked about.
 */
module Int128Division {
  import opened Options
  import opened Binary
  import opened Int128Words
  import opened Widths
  import opened Int128Shifts
  import opened Int128s

  type Value = v: int | -B127 <= v < B127

  /** operator< on the words of two values. */
  predicate LessValues(a: Value, b: Value) {
    LessWords(ToU64(a), a / B64, ToU64(b), b / B64)
  }

  lemma LessIs(a: Value, b: Value)
    requires a >= 0 || b >= 0 || a == b
    ensures LessValues(a, b) <==> a < b
  {
    WordsOf(a);
    WordsOf(b);
    LessExactWhen(ToU64(a), a / B64, ToU64(b), b / B64);
  }

  lemma WordsOf(a: Value)
    ensures Val(ToU64(a), a / B64) == a && (a >= 0 <==> a / B64 >= 0)
  {}

  /** Running remainder, quotient and bit position. */
  datatype Turn = Turn(r: Value, q: Value, b: nat)

  /** The first loop, lines 258-263: bits of dd from b down, until r reaches ds. */
  function FirstLoop(dd: Value, ds: Value, r: Value, b: int): (t: Turn)
    requires b >= -1
    decreases b
  {
    if b < 0 || !LessValues(r, ds) then Turn(r, 0, b + 1)
    else FirstLoop(dd, ds, Wrap(2 * r + BitValue(dd, b)), b - 1)
  }

  /** One turn of the second loop, lines 265-277; None leaves it. */
  function NextTurn(dd: Value, ds: Value, t: Turn): (r: Option<Turn>) {
    if LessValues(t.r, ds) then
      if t.b == 0 then None else Some(Turn(Wrap(2 * t.r + BitValue(dd, t.b - 1)), t.q, t.b - 1))
    else Some(Turn(Wrap(t.r - ds), WithBitValue(t.q, t.b), t.b))
  }

  function WithBitValue(q: Value, b: nat): (r: Value) {
    WithBit(q, b, true)
  }

  datatype Progress = Going(at: Turn) | Ended(last: Turn)

  /** The second loop after k turns. */
  function AfterTurns(dd: Value, ds: Value, t: Turn, k: nat): (p: Progress)
    decreases k
  {
    if k == 0 then Going(t)
    else
      match NextTurn(dd, ds, t)
      case None => Ended(t)
      case Some(next) => AfterTurns(dd, ds, next, k - 1)
  }

  function MagnitudeOf(v: Value): (m: Value) {
    if v < 0 then Wrap(0 - v) else v
  }

  /** div, given up after k turns of its second loop. */
  function DivWithin(n: Value, d: Value, k: nat): (r: Option<(Value, Value)>) {
    var ds, dd := MagnitudeOf(d), MagnitudeOf(n);
    if LessValues(dd, ds) then Some((0, n))
    else
      match AfterTurns(dd, ds, FirstLoop(dd, ds, 0, 127), k)
      case Going(_) => None
      case Ended(t) => Some(Signed(n, d, t))
  }

  /** Lines 280-283. */
  function Signed(n: Value, d: Value, t: Turn): (r: (Value, Value)) {
    (if (d < 0) != (n < 0) then Wrap(0 - t.q) else t.q, if n < 0 then Wrap(0 - t.r) else t.r)
  }

  // ---- the least value as divisor -------------------------------------------------------------

  /** It is its own magnitude, below every running remainder: subtracting it for ever swings the
      remainder between 0 and itself, and the bit position never moves. */
  lemma {:induction false} Swings(dd: Value, t: Turn, k: nat)
    requires (t.r == 0 || t.r == MIN_VALUE) && t.b >= 128
    ensures var p := AfterTurns(dd, MIN_VALUE, t, k);
            && p.Going? && p.at.b == t.b && p.at.q == t.q && (p.at.r == 0 || p.at.r == MIN_VALUE)
            && !LessValues(p.at.r, MIN_VALUE)
    decreases k
  {
    LessIs(t.r, MIN_VALUE);
    assert Wrap(0 - MIN_VALUE) == MIN_VALUE && Wrap(MIN_VALUE - MIN_VALUE) == 0;
    if k > 0 { Swings(dd, NextTurn(dd, MIN_VALUE, t).value, k - 1); }
  }

  /** Dividing by the least value never ends. */
  lemma LeastDivisorNeverEnds(n: Value, k: nat)
    ensures DivWithin(n, MIN_VALUE, k) == None
  {
    var dd := MagnitudeOf(n);
    assert MagnitudeOf(MIN_VALUE) == MIN_VALUE;
    MagnitudeIs(n);
    LessIs(dd, MIN_VALUE);
    LessIs(0, MIN_VALUE);
    Swings(dd, Turn(0, 0, 128), k);
  }

  lemma MagnitudeIs(v: Value)
    ensures MagnitudeOf(v) == if v == MIN_VALUE then MIN_VALUE else Abs(v)
  {}

  // ---- every other divisor ----------------------------------------------------------------------

  lemma {:induction false} FirstLoopIs(n: Value, d: Value, r: Value, b: int)
    requires 0 < d <= n && -1 <= b <= 127 && r == n / Pow2(b + 1) && 0 <= r < 2 * d
    ensures var t := FirstLoop(n, d, r, b); t.q == 0 && t.r == n / Pow2(t.b) && d <= t.r < 2 * d
    decreases b
  {
    LessIs(r, d);
    if b < 0 {
      DivUnique(n, 1, n, 0);
    } else if r < d {
      PrefixStep(n, b);
      WrapSmall(2 * r + BitValue(n, b));
      FirstLoopIs(n, d, 2 * r + BitValue(n, b), b - 1);
    }
  }

  /** Division by a positive number ends, with quotient and remainder. */
  lemma {:induction false} TurnsEnd(n: Value, d: Value, t: Turn) returns (k: nat, last: Turn)
    requires LongDivideInv(n, d, t.q, t.r, t.b)
    ensures AfterTurns(n, d, t, k) == Ended(last)
    ensures n == last.q * d + last.r && 0 <= last.q && 0 <= last.r < d
    decreases t.b, if t.r >= d then 1 else 0
  {
    LessIs(t.r, d);
    if t.r >= d {
      LongDivideSubtract(n, d, t.q, t.r, t.b);
      WrapSmall(t.r - d);
      WrapSmall(t.q + Pow2(t.b));
      var next := Turn(t.r - d, t.q + Pow2(t.b), t.b);
      assert NextTurn(n, d, t) == Some(next);
      k, last := TurnsEnd(n, d, next);
      k := k + 1;
    } else if t.b == 0 {
      LongDivideEnd(n, d, t.q, t.r);
      k, last := 1, t;
    } else {
      LongDivideShift(n, d, t.q, t.r, t.b);
      WrapSmall(2 * t.r + BitValue(n, t.b - 1));
      var next := Turn(2 * t.r + BitValue(n, t.b - 1), t.q, t.b - 1);
      assert NextTurn(n, d, t) == Some(next);
      k, last := TurnsEnd(n, d, next);
      k := k + 1;
    }
  }

  lemma MagnitudesDivide(n: Value, d: Value) returns (k: nat, last: Turn)
    requires 0 < d <= n
    ensures AfterTurns(n, d, FirstLoop(n, d, 0, 127), k) == Ended(last)
    ensures n == last.q * d + last.r && 0 <= last.q && 0 <= last.r < d
  {
    assert n / Pow2(128) == 0 by {
      PowConstants();
      DivUnique(n, B128, 0, n);
    }
    FirstLoopIs(n, d, 0, 127);
    var t := FirstLoop(n, d, 0, 127);
    LongDivideStart(n, d, t.r, t.b);
    k, last := TurnsEnd(n, d, t);
  }

  /** The outcome is truncated division. */
  ghost predicate Divides(n: Value, d: Value, r: Option<(Value, Value)>)
    requires d != 0
  {
    r.Some? && TruncatedDivision(n, d, r.value.0, r.value.1)
  }

  lemma SignedDivides(n: Value, d: Value, t: Turn)
    requires d != 0 && d != MIN_VALUE && n != MIN_VALUE
    requires Abs(n) == t.q * Abs(d) + t.r && 0 <= t.q && 0 <= t.r < Abs(d)
    ensures TruncatedDivision(n, d, Signed(n, d, t).0, Signed(n, d, t).1)
  {
    SignedResult(n, d, t.q, t.r);
    WrapSmall(0 - t.q);
    WrapSmall(0 - t.r);
  }

  lemma SmallDividend(n: Value, d: Value, k: nat)
    requires d != 0 && d != MIN_VALUE && n != MIN_VALUE && Abs(n) < Abs(d)
    ensures Divides(n, d, DivWithin(n, d, k))
  {
    MagnitudeIs(d);
    MagnitudeIs(n);
    LessIs(Abs(n), Abs(d));
  }

  lemma LargeDividend(n: Value, d: Value, k: nat, t: Turn)
    requires d != 0 && d != MIN_VALUE && n != MIN_VALUE && Abs(d) <= Abs(n)
    requires AfterTurns(Abs(n), Abs(d), FirstLoop(Abs(n), Abs(d), 0, 127), k) == Ended(t)
    ensures DivWithin(n, d, k) == Some(Signed(n, d, t))
  {
    MagnitudeIs(d);
    MagnitudeIs(n);
    LessIs(Abs(n), Abs(d));
  }

  lemma OtherwiseDivides(n: Value, d: Value) returns (k: nat)
    requires d != 0 && d != MIN_VALUE && n != MIN_VALUE
    ensures Divides(n, d, DivWithin(n, d, k))
  {
    if Abs(n) < Abs(d) {
      k := 0;
      SmallDividend(n, d, k);
    } else {
      var t;
      k, t := MagnitudesDivide(Abs(n), Abs(d));
      SignedDivides(n, d, t);
      LargeDividend(n, d, k, t);
    }
  }

  /** The least value as dividend is its own remainder, whatever the divisor. */
  lemma LeastDividend(d: Value, k: nat)
    requires d != 0 && d != MIN_VALUE
    ensures var r := DivWithin(MIN_VALUE, d, k);
            r.Some? && r.value.0 == 0 && r.value.1 == MIN_VALUE && !Divides(MIN_VALUE, d, r)
  {
    MagnitudeIs(d);
    MagnitudeIs(MIN_VALUE);
    LessIs(MIN_VALUE, Abs(d));
  }

  /** div ends with truncated division exactly when neither operand is the least value. */
  lemma DividesWhen(n: Value, d: Value)
    requires d != 0
    ensures (exists k: nat :: Divides(n, d, DivWithin(n, d, k))) <==> n != MIN_VALUE && d != MIN_VALUE
  {
    if d == MIN_VALUE {
      forall k: nat ensures !Divides(n, d, DivWithin(n, d, k)) { LeastDivisorNeverEnds(n, k); }
    } else if n == MIN_VALUE {
      forall k: nat ensures !Divides(n, d, DivWithin(n, d, k)) { LeastDividend(d, k); }
    } else {
      var k := OtherwiseDivides(n, d);
    }
  }

  // ---- the class ------------------------------------------------------------------------------

  lemma {:induction false} EndedStays(dd: Value, ds: Value, t: Turn, k: nat, more: nat)
    requires AfterTurns(dd, ds, t, k).Ended? && k <= more
    ensures AfterTurns(dd, ds, t, more) == AfterTurns(dd, ds, t, k)
    decreases k
  {
    if NextTurn(dd, ds, t).Some? { EndedStays(dd, ds, NextTurn(dd, ds, t).value, k - 1, more - 1); }
  }

  /** The result does not depend on the patience. */
  lemma EndsOnce(n: Value, d: Value, k: nat, more: nat)
    requires DivWithin(n, d, k).Some? && k <= more
    ensures DivWithin(n, d, more) == DivWithin(n, d, k)
  {
    var ds, dd := MagnitudeOf(d), MagnitudeOf(n);
    if !LessValues(dd, ds) { EndedStays(dd, ds, FirstLoop(dd, ds, 0, 127), k, more); }
  }

  /** What the method div promises is what the two loops compute. */
  lemma LoopsGive(n: Value, d: Value, q: Value, r: Value) returns (k: nat)
    requires d != 0 && d != MIN_VALUE
    requires n != MIN_VALUE ==> TruncatedDivision(n, d, q, r)
    requires n == MIN_VALUE ==> q == 0 && r == MIN_VALUE
    ensures DivWithin(n, d, k) == Some((q, r))
    ensures forall l: nat :: DivWithin(n, d, l).Some? ==> DivWithin(n, d, l) == Some((q, r))
  {
    if n == MIN_VALUE {
      k := 0;
      LeastDividend(d, k);
    } else {
      k := OtherwiseDivides(n, d);
      var x := DivWithin(n, d, k).value;
      TruncatedUnique(n, d, x.0, x.1);
      TruncatedUnique(n, d, q, r);
    }
    forall l: nat | DivWithin(n, d, l).Some? ensures DivWithin(n, d, l) == Some((q, r)) {
      if l <= k { EndsOnce(n, d, l, k); } else { EndsOnce(n, d, k, l); }
    }
  }

  /** div, with the turns of its loops counted. */
  method DivCounted(n: Int128, d: Int128, remainder: Int128) returns (q: Int128, ghost k: nat)
    requires d.Value() != 0 && d.Value() != MIN_VALUE
    modifies remainder
    ensures fresh(q) && DivWithin(old(n.Value()), old(d.Value()), k) == Some((q.Value(), remainder.Value()))
    ensures forall l: nat ::
              var r := DivWithin(old(n.Value()), old(d.Value()), l);
              r.Some? ==> r.value == (q.Value(), remainder.Value())
  {
    ghost var x, y := n.Value(), d.Value();
    q := n.Div(d, remainder);
    k := LoopsGive(x, y, q.Value(), remainder.Value());
  }
}
