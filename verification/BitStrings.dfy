/**
 Bit strings, most significant bit first: bytes with their shifts and masks, byte vectors,
 and the numbers that bit strings denote.
 */
module BitStrings {
  import opened Binary
  import opened Sequences

  // ---- bytes ------------------------------------------------------------------------------

  function Repeat(b: bool, n: nat): (s: seq<bool>)
    ensures |s| == n
  {
    seq(n, i => b)
  }

  /** A uint8_t as its eight bits. */
  type Byte = s: seq<bool> | |s| == 8 witness Repeat(false, 8)

  function AndBits(a: seq<bool>, b: seq<bool>): (c: seq<bool>)
    requires |a| == |b|
    ensures |c| == |a|
  {
    if a == [] then [] else [a[0] && b[0]] + AndBits(a[1..], b[1..])
  }

  function OrBits(a: seq<bool>, b: seq<bool>): (c: seq<bool>)
    requires |a| == |b|
    ensures |c| == |a|
  {
    if a == [] then [] else [a[0] || b[0]] + OrBits(a[1..], b[1..])
  }

  /** Shifts; the bits that leave the byte are lost. */
  function Shl(a: Byte, n: nat): (c: Byte)
    requires n <= 8
  {
    a[n..] + Repeat(false, n)
  }

  function Shr(a: Byte, n: nat): (c: Byte)
    requires n <= 8
  {
    Repeat(false, n) + a[..8 - n]
  }

  lemma {:induction false} RepeatSplit(b: bool, m: nat, n: nat)
    ensures Repeat(b, m + n) == Repeat(b, m) + Repeat(b, n)
    ensures Repeat(b, m + n)[m..] == Repeat(b, n) && Repeat(b, m + n)[..m] == Repeat(b, m)
  {
  }

  lemma {:induction false} OrSplit(a: seq<bool>, b: seq<bool>, a': seq<bool>, b': seq<bool>)
    requires |a| == |b| && |a'| == |b'|
    ensures OrBits(a + a', b + b') == OrBits(a, b) + OrBits(a', b')
  {
    var x, y := a + a', b + b';
    if a == [] {
      assert x == a' && y == b';
    } else {
      OrSplit(a[1..], b[1..], a', b');
      assert x[1..] == a[1..] + a' && y[1..] == b[1..] + b' && x[0] == a[0] && y[0] == b[0];
      Regroup([a[0] || b[0]], OrBits(a[1..], b[1..]), OrBits(a', b'));
    }
  }

  lemma {:induction false} AndSplit(a: seq<bool>, b: seq<bool>, a': seq<bool>, b': seq<bool>)
    requires |a| == |b| && |a'| == |b'|
    ensures AndBits(a + a', b + b') == AndBits(a, b) + AndBits(a', b')
  {
    var x, y := a + a', b + b';
    if a == [] {
      assert x == a' && y == b';
    } else {
      AndSplit(a[1..], b[1..], a', b');
      assert x[1..] == a[1..] + a' && y[1..] == b[1..] + b' && x[0] == a[0] && y[0] == b[0];
      Regroup([a[0] && b[0]], AndBits(a[1..], b[1..]), AndBits(a', b'));
    }
  }

  lemma {:induction false} OrZeros(a: seq<bool>)
    ensures OrBits(a, Repeat(false, |a|)) == a && OrBits(Repeat(false, |a|), a) == a
  {
    if a != [] {
      OrZeros(a[1..]);
      assert Repeat(false, |a|)[1..] == Repeat(false, |a| - 1);
      assert a == [a[0]] + a[1..];
    }
  }

  lemma {:induction false} AndOnes(a: seq<bool>)
    ensures AndBits(a, Repeat(true, |a|)) == a
  {
    if a != [] {
      AndOnes(a[1..]);
      assert Repeat(true, |a|)[1..] == Repeat(true, |a| - 1);
      assert a == [a[0]] + a[1..];
    }
  }

  lemma {:induction false} AndZeros(a: seq<bool>)
    ensures AndBits(a, Repeat(false, |a|)) == Repeat(false, |a|)
  {
    if a != [] {
      AndZeros(a[1..]);
      assert Repeat(false, |a|)[1..] == Repeat(false, |a| - 1);
      assert Repeat(false, |a|) == [false] + Repeat(false, |a| - 1);
    }
  }

  // ---- byte vectors -------------------------------------------------------------------------

  function AllBits(data: seq<Byte>): (s: seq<bool>)
    ensures |s| == 8 * |data|
  {
    if data == [] then [] else AllBits(data[..|data| - 1]) + data[|data| - 1]
  }

  lemma {:induction false} AllBitsAt(data: seq<Byte>, i: nat)
    requires i < |data|
    ensures AllBits(data)[8 * i..8 * i + 8] == data[i]
  {
    var front := data[..|data| - 1];
    if i < |front| {
      AllBitsAt(front, i);
      assert AllBits(data)[8 * i..8 * i + 8] == AllBits(front)[8 * i..8 * i + 8];
    }
  }

  lemma AllBitsPush(data: seq<Byte>, b: Byte)
    ensures AllBits(data + [b]) == AllBits(data) + b
  {
    assert (data + [b])[..|data|] == data;
  }

  lemma {:induction false} AllBitsConcat(s: seq<Byte>, t: seq<Byte>)
    ensures AllBits(s + t) == AllBits(s) + AllBits(t)
  {
    if t == [] {
      assert s + t == s;
    } else {
      var t0 := t[..|t| - 1];
      AllBitsConcat(s, t0);
      assert (s + t)[..|s + t| - 1] == s + t0;
      Regroup(AllBits(s), AllBits(t0), t[|t| - 1]);
    }
  }

  // ---- numbers ------------------------------------------------------------------------------

  /** The low n bits of v. */
  function ToBits(v: nat, n: nat): (s: seq<bool>)
    ensures |s| == n
  {
    if n == 0 then [] else ToBits(v / 2, n - 1) + [v % 2 == 1]
  }

  function FromBits(s: seq<bool>): (v: nat)
    ensures v < Pow2(|s|)
  {
    if s == [] then 0 else 2 * FromBits(s[..|s| - 1]) + (if s[|s| - 1] then 1 else 0)
  }

  lemma {:induction false} BackFromBits(v: nat, n: nat)
    ensures FromBits(ToBits(v, n)) == v % Pow2(n)
  {
    if n > 0 {
      BackFromBits(v / 2, n - 1);
      DivDiv(v, 2, Pow2(n - 1));
      assert ToBits(v, n)[..n - 1] == ToBits(v / 2, n - 1);
    }
  }

  lemma {:induction false} BackToBits(s: seq<bool>)
    ensures ToBits(FromBits(s), |s|) == s
  {
    if s != [] {
      BackToBits(s[..|s| - 1]);
      assert s == s[..|s| - 1] + [s[|s| - 1]];
    }
  }

  /** High part, low part. */
  lemma {:induction false} BitsSplit(v: nat, m: nat, n: nat)
    ensures 0 <= v / Pow2(n) && ToBits(v, m + n) == ToBits(v / Pow2(n), m) + ToBits(v, n)
    decreases n
  {
    DivShrinks(v, Pow2(n));
    if n > 0 {
      BitsSplit(v / 2, m, n - 1);
      DivDiv(v, 2, Pow2(n - 1));
      Regroup(ToBits(v / Pow2(n), m), ToBits(v / 2, n - 1), [v % 2 == 1]);
    }
  }

  lemma {:induction false} ValueOfConcat(s: seq<bool>, t: seq<bool>)
    ensures FromBits(s + t) == FromBits(s) * Pow2(|t|) + FromBits(t)
  {
    if t == [] {
      assert s + t == s;
    } else {
      var t0 := t[..|t| - 1];
      ValueOfConcat(s, t0);
      ValuePush(s + t, s + t0, t[|t| - 1]);
      ValuePush(t, t0, t[|t| - 1]);
      Doubling(FromBits(s), Pow2(|t0|));
    }
  }

  lemma ValuePush(all: seq<bool>, s: seq<bool>, b: bool)
    requires all == s + [b]
    ensures FromBits(all) == 2 * FromBits(s) + (if b then 1 else 0) && Pow2(|all|) == 2 * Pow2(|s|)
  {
    assert all[..|s|] == s;
  }

  lemma {:induction false} BitsAt(v: nat, n: nat, i: nat)
    requires i < n
    ensures ToBits(v, n)[i] == BitAt(v, n - 1 - i)
    decreases n
  {
    if i == n - 1 {
      assert Pow2(0) == 1;
    } else {
      BitsAt(v / 2, n - 1, i);
      DivDiv(v, 2, Pow2(n - 2 - i));
    }
  }

  lemma {:induction false} AndBit(x: nat, n: nat)
    ensures And(x, Pow2(n)) != 0 <==> BitAt(x, n)
  {
    if x == 0 {
      DivUnique(0, Pow2(n), 0, 0);
    } else if n > 0 {
      DivDiv(x, 2, Pow2(n - 1));
      AndBit(x / 2, n - 1);
    }
  }
}
