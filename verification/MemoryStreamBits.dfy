/**
 What the byte-level statements of inet::MemoryOutputStream and inet::MemoryInputStream do
 to the bits of the stream.
 */
module MemoryStreamBits {
  import opened BitStrings
  import opened Sequences

  // ---- writing ----------------------------------------------------------------------------

  /** A stream of n whole bytes and k bits: just enough bytes, and zeros behind the last bit. */
  ghost predicate Padded(data: seq<Byte>, n: nat, k: nat) {
    k < 8 && if k == 0 then |data| == n else |data| == n + 1 && ZeroFrom(data[n], k)
  }

  ghost predicate ZeroFrom(b: Byte, k: nat)
    requires k <= 8
  {
    b[k..] == Repeat(false, 8 - k)
  }

  /** The bits written so far. */
  ghost function Contents(data: seq<Byte>, length: nat): (s: seq<bool>)
    requires length <= 8 * |data|
  {
    AllBits(data)[..length]
  }

  lemma ContentsSplit(front: seq<Byte>, last: Byte, k: nat)
    requires k <= 8
    ensures Contents(front + [last], 8 * |front| + k) == AllBits(front) + last[..k]
  {
    AllBitsPush(front, last);
    PrefixOfConcat(AllBits(front), last, k);
  }

  lemma PrefixOfConcat(a: seq<bool>, b: seq<bool>, k: nat)
    requires k <= |b|
    ensures (a + b)[..|a| + k] == a + b[..k]
  {}

  /** 1 << (7 - k). */
  function OneAt(k: nat): (b: Byte)
    requires k < 8
  {
    Repeat(false, k) + [true] + Repeat(false, 7 - k)
  }

  /** Lines 92-101: a bit behind n bytes and k bits. */
  function PutBit(data: seq<Byte>, n: nat, k: nat, value: bool): (d: seq<Byte>)
    requires k < 8 && |data| == if k == 0 then n else n + 1
    ensures |d| == n + 1
  {
    var d := if k == 0 then data + [Repeat(false, 8)] else data;
    if value then d[n := OrBits(d[n], OneAt(k))] else d
  }

  lemma SetOne(x: Byte, k: nat)
    requires k < 8 && ZeroFrom(x, k)
    ensures x == (x[..k] + [false]) + Repeat(false, 7 - k)
    ensures OrBits(x, OneAt(k)) == (x[..k] + [true]) + Repeat(false, 7 - k)
  {
    var zeros := Repeat(false, 7 - k);
    assert x == x[..k] + x[k..];
    assert x == (x[..k] + [false]) + zeros;
    OrSplit(x[..k] + [false], Repeat(false, k) + [true], zeros, zeros);
    OrSplit(x[..k], Repeat(false, k), [false], [true]);
    OrZeros(x[..k]);
    OrZeros(zeros);
    assert OrBits([false], [true]) == [true];
  }

  /** One more bit in the last byte. */
  lemma LastByteGrows(front: seq<Byte>, x: Byte, k: nat, y: Byte, value: bool)
    requires k < 8 && ZeroFrom(x, k) && y == if value then OrBits(x, OneAt(k)) else x
    ensures Contents(front + [y], 8 * |front| + k + 1) == Contents(front + [x], 8 * |front| + k) + [value]
    ensures ZeroFrom(y, k + 1)
  {
    ContentsSplit(front, x, k);
    ContentsSplit(front, y, k + 1);
    SetOne(x, k);
    var head := x[..k] + [value];
    assert y == head + Repeat(false, 7 - k) && |head| == k + 1;
    Regroup(AllBits(front), x[..k], [value]);
  }

  lemma PutBitAppends(data: seq<Byte>, n: nat, k: nat, value: bool)
    requires Padded(data, n, k)
    ensures ZeroFrom(PutBit(data, n, k, value)[n], k + 1)
    ensures Contents(PutBit(data, n, k, value), 8 * n + k + 1) == Contents(data, 8 * n + k) + [value]
  {
    var x: Byte := if k == 0 then Repeat(false, 8) else data[n];
    var y: Byte := if value then OrBits(x, OneAt(k)) else x;
    PutBitLast(data, n, k, value, x, y);
    SameContents(data, n, k, x);
    GrownBy(data[..n], x, n, k, y, value, data, PutBit(data, n, k, value));
  }

  lemma GrownBy(front: seq<Byte>, x: Byte, n: nat, k: nat, y: Byte, value: bool, data: seq<Byte>, d: seq<Byte>)
    requires k < 8 && ZeroFrom(x, k) && y == (if value then OrBits(x, OneAt(k)) else x) && n == |front|
    requires 8 * n + k <= 8 * |data| && Contents(front + [x], 8 * n + k) == Contents(data, 8 * n + k)
    requires d == front + [y]
    ensures ZeroFrom(d[n], k + 1) && Contents(d, 8 * n + k + 1) == Contents(data, 8 * n + k) + [value]
  {
    LastByteGrows(front, x, k, y, value);
  }

  lemma PutBitLast(data: seq<Byte>, n: nat, k: nat, value: bool, x: Byte, y: Byte)
    requires k < 8 && |data| == (if k == 0 then n else n + 1)
    requires x == (if k == 0 then Repeat(false, 8) else data[n]) && y == if value then OrBits(x, OneAt(k)) else x
    ensures PutBit(data, n, k, value) == data[..n] + [y]
  {}

  lemma SameContents(data: seq<Byte>, n: nat, k: nat, x: Byte)
    requires k < 8 && |data| == (if k == 0 then n else n + 1) && (k != 0 ==> x == data[n])
    ensures Contents(data[..n] + [x], 8 * n + k) == Contents(data, 8 * n + k)
  {
    if k == 0 {
      assert data[..n] == data;
      AllBitsPush(data, x);
    } else {
      assert data[..n] + [x] == data;
    }
  }

  /** Lines 127-137: a byte behind n bytes and l1 bits. */
  function PutByte(data: seq<Byte>, n: nat, l1: nat, value: Byte): (d: seq<Byte>)
    requires l1 < 8 && |data| == if l1 == 0 then n else n + 1
    ensures |d| == |data| + 1
  {
    if l1 == 0 then data + [value]
    else
      var l2 := 8 - l1;
      data[n := OrBits(data[n], Shr(AndBits(value, Shl(Repeat(true, 8), l2)), l2))]
        + [Shl(AndBits(value, Shr(Repeat(true, 8), l1)), l1)]
  }

  /** What the masks and shifts leave: the first l1 bits at the end of the old byte, the others
      at the front of the new one. */
  lemma Masks(value: Byte, l1: nat)
    requires 0 < l1 < 8
    ensures Shr(AndBits(value, Shl(Repeat(true, 8), 8 - l1)), 8 - l1) == Repeat(false, 8 - l1) + value[..l1]
    ensures Shl(AndBits(value, Shr(Repeat(true, 8), l1)), l1) == value[l1..] + Repeat(false, l1)
  {
    var l2 := 8 - l1;
    assert value == value[..l1] + value[l1..];
    RepeatSplit(true, l1, l2);
    RepeatSplit(true, l2, l1);
    AndSplit(value[..l1], Repeat(true, l1), value[l1..], Repeat(false, l2));
    AndSplit(value[..l1], Repeat(false, l1), value[l1..], Repeat(true, l2));
    AndOnes(value[..l1]);
    AndZeros(value[..l1]);
    AndOnes(value[l1..]);
    AndZeros(value[l1..]);
  }

  lemma NibbleIn(x: Byte, value: Byte)
    requires ZeroFrom(x, 4)
    ensures OrBits(x, Repeat(false, 4) + value[..4]) == x[..4] + value[..4]
  {
    assert x == x[..4] + Repeat(false, 4);
    OrSplit(x[..4], Repeat(false, 4), Repeat(false, 4), value[..4]);
    OrZeros(x[..4]);
    OrZeros(value[..4]);
  }

  lemma NibblesInPlace(front: seq<Byte>, x: Byte, value: Byte, y: Byte, z: Byte)
    requires y == x[..4] + value[..4] && z[..4] == value[4..]
    ensures Contents((front + [y]) + [z], 8 * |front| + 12) == Contents(front + [x], 8 * |front| + 4) + value
  {
    ContentsSplit(front, x, 4);
    ContentsSplit(front + [y], z, 4);
    AllBitsPush(front, y);
    Regroup(AllBits(front), x[..4], value[..4]);
    Regroup(AllBits(front) + x[..4], value[..4], value[4..]);
    assert value[..4] + value[4..] == value;
  }

  lemma PutByteAppends(data: seq<Byte>, n: nat, l1: nat, value: Byte)
    requires Padded(data, n, l1) && (l1 == 0 || l1 == 4)
    ensures Padded(PutByte(data, n, l1, value), n + 1, l1)
    ensures Contents(PutByte(data, n, l1, value), 8 * n + l1 + 8) == Contents(data, 8 * n + l1) + value
  {
    if l1 == 0 {
      AllBitsPush(data, value);
    } else {
      Masks(value, l1);
      NibbleIn(data[n], value);
      var y, z := data[n][..4] + value[..4], value[4..] + Repeat(false, 4);
      assert PutByte(data, n, l1, value) == (data[..n] + [y]) + [z];
      NibblesInPlace(data[..n], data[n], value, y, z);
      assert data == data[..n] + [data[n]];
    }
  }

  /** Bit k of x and of what is put over it, unless the two shift distances agree. */
  lemma FirstBitLost(x: Byte, k: nat)
    requires 0 < k < 8 && k != 4 && ZeroFrom(x, k)
    ensures !OrBits(x, Repeat(false, 8 - k) + OneAt(0)[..k])[k]
  {
    assert x[k] == x[k..][0];
    var y := Repeat(false, 8 - k) + OneAt(0)[..k];
    OrAt(x, y, k);
    if k < 8 - k {
      RepeatAt(8 - k, k);
    } else {
      RepeatAt(7, 2 * k - 9);
      assert y[k] == OneAt(0)[2 * k - 8] == Repeat(false, 7)[2 * k - 9];
    }
  }

  lemma {:induction false} OrAt(a: seq<bool>, b: seq<bool>, i: nat)
    requires |a| == |b| && i < |a|
    ensures OrBits(a, b)[i] == (a[i] || b[i])
  {
    if i > 0 { OrAt(a[1..], b[1..], i - 1); }
  }

  lemma {:induction false} RepeatAt(n: nat, i: nat)
    requires i < n
    ensures !Repeat(false, n)[i]
  {
    if i > 0 { RepeatAt(n - 1, i - 1); }
  }

  lemma BitOfByte(d: seq<Byte>, n: nat, k: nat)
    requires n < |d| && k < 8
    ensures AllBits(d)[8 * n + k] == d[n][k]
  {
    AllBitsAt(d, n);
    assert AllBits(d)[8 * n..8 * n + 8][k] == AllBits(d)[8 * n + k];
  }

  /** At any other offset the byte 0x80 comes out with a zero first bit. */
  lemma FirstBitCleared(data: seq<Byte>, n: nat, l1: nat)
    requires Padded(data, n, l1) && l1 != 0 && l1 != 4
    ensures !PutByte(data, n, l1, OneAt(0))[n][l1]
  {
    Masks(OneAt(0), l1);
    FirstBitLost(data[n], l1);
  }

  lemma PutByteFails(data: seq<Byte>, n: nat, l1: nat)
    requires Padded(data, n, l1) && l1 != 0 && l1 != 4
    ensures Contents(PutByte(data, n, l1, OneAt(0)), 8 * n + l1 + 8) != Contents(data, 8 * n + l1) + OneAt(0)
  {
    var d := PutByte(data, n, l1, OneAt(0));
    FirstBitCleared(data, n, l1);
    BitOfByte(d, n, l1);
    assert !Contents(d, 8 * n + l1 + 8)[8 * n + l1];
    assert (Contents(data, 8 * n + l1) + OneAt(0))[8 * n + l1] == OneAt(0)[0];
  }

  /** writeByte appends the eight bits of every value exactly at offsets 0 and 4. */
  lemma WriteByteRightWhen(data: seq<Byte>, n: nat, l1: nat)
    requires Padded(data, n, l1)
    ensures (forall value: Byte ::
               Contents(PutByte(data, n, l1, value), 8 * n + l1 + 8) == Contents(data, 8 * n + l1) + value)
            <==> l1 == 0 || l1 == 4
  {
    if l1 == 0 || l1 == 4 {
      forall value: Byte
        ensures Contents(PutByte(data, n, l1, value), 8 * n + l1 + 8) == Contents(data, 8 * n + l1) + value
      {
        PutByteAppends(data, n, l1, value);
      }
    } else {
      PutByteFails(data, n, l1);
    }
  }

  /** One byte after the other. */
  function PutBytes(data: seq<Byte>, n: nat, l1: nat, bytes: seq<Byte>): (d: seq<Byte>)
    requires l1 < 8 && |data| == if l1 == 0 then n else n + 1
    ensures |d| == |data| + |bytes|
  {
    if bytes == [] then data
    else
      var m := |bytes| - 1;
      PutByte(PutBytes(data, n, l1, bytes[..m]), n + m, l1, bytes[m])
  }

  lemma {:induction false} PutBytesAppends(data: seq<Byte>, n: nat, l1: nat, bytes: seq<Byte>)
    requires Padded(data, n, l1) && (l1 == 0 || l1 == 4)
    ensures Padded(PutBytes(data, n, l1, bytes), n + |bytes|, l1)
    ensures Contents(PutBytes(data, n, l1, bytes), 8 * (n + |bytes|) + l1) ==
            Contents(data, 8 * n + l1) + AllBits(bytes)
  {
    if bytes != [] {
      var m := |bytes| - 1;
      PutBytesAppends(data, n, l1, bytes[..m]);
      var d := PutBytes(data, n, l1, bytes[..m]);
      PutByteBehind(d, n + m, l1, bytes[m], Contents(data, 8 * n + l1), AllBits(bytes[..m]));
    }
  }

  lemma PutByteBehind(d: seq<Byte>, k: nat, l1: nat, b: Byte, before: seq<bool>, sent: seq<bool>)
    requires Padded(d, k, l1) && (l1 == 0 || l1 == 4) && Contents(d, 8 * k + l1) == before + sent
    ensures Padded(PutByte(d, k, l1, b), k + 1, l1)
    ensures Contents(PutByte(d, k, l1, b), 8 * (k + 1) + l1) == before + (sent + b)
  {
    PutByteAppends(d, k, l1, b);
    Regroup(before, sent, b);
  }

  /** Later bytes do not touch where the first one started. */
  lemma {:induction false} FirstByteStays(data: seq<Byte>, n: nat, l1: nat, bytes: seq<Byte>)
    requires l1 < 8 && |data| == (if l1 == 0 then n else n + 1) && bytes != []
    ensures PutBytes(data, n, l1, bytes)[n] == PutByte(data, n, l1, bytes[0])[n]
    decreases |bytes|
  {
    var m := |bytes| - 1;
    if m > 0 {
      FirstByteStays(data, n, l1, bytes[..m]);
    } else {
      assert bytes[..m] == [];
    }
  }

  lemma PutBytesFail(data: seq<Byte>, n: nat, l1: nat, bytes: seq<Byte>)
    requires Padded(data, n, l1) && l1 != 0 && l1 != 4 && bytes != [] && bytes[0] == OneAt(0)
    ensures Contents(PutBytes(data, n, l1, bytes), 8 * (n + |bytes|) + l1) !=
            Contents(data, 8 * n + l1) + AllBits(bytes)
  {
    var d, p := PutBytes(data, n, l1, bytes), 8 * n + l1;
    FirstByteStays(data, n, l1, bytes);
    FirstBitCleared(data, n, l1);
    BitOfByte(d, n, l1);
    assert !Contents(d, 8 * (n + |bytes|) + l1)[p];
    BitOfByte(bytes, 0, 0);
    assert (Contents(data, p) + AllBits(bytes))[p] == AllBits(bytes)[0] == OneAt(0)[0];
  }

  /** So do the functions that write m bytes. */
  lemma WriteBytesRightWhen(data: seq<Byte>, n: nat, l1: nat, m: nat)
    requires Padded(data, n, l1) && m > 0
    ensures (forall bytes: seq<Byte> :: |bytes| == m ==>
               Contents(PutBytes(data, n, l1, bytes), 8 * (n + m) + l1) == Contents(data, 8 * n + l1) + AllBits(bytes))
            <==> l1 == 0 || l1 == 4
  {
    if l1 == 0 || l1 == 4 {
      forall bytes: seq<Byte> | |bytes| == m
        ensures Contents(PutBytes(data, n, l1, bytes), 8 * (n + m) + l1) == Contents(data, 8 * n + l1) + AllBits(bytes)
      {
        PutBytesAppends(data, n, l1, bytes);
      }
    } else {
      PutBytesFail(data, n, l1, seq(m, i => OneAt(0)));
    }
  }

  // ---- reading ----------------------------------------------------------------------------

  /** Lines 138-152: bit k of byte n. */
  predicate GetBit(data: seq<Byte>, n: nat, k: nat)
    requires n < |data| && k < 8
  {
    AndBits(data[n], OneAt(k)) != Repeat(false, 8)
  }

  lemma GetBitReads(data: seq<Byte>, n: nat, k: nat)
    requires n < |data| && k < 8
    ensures GetBit(data, n, k) == AllBits(data)[8 * n + k]
  {
    BitOfByte(data, n, k);
    OneBit(data[n], k);
  }

  lemma OneBit(x: Byte, k: nat)
    requires k < 8
    ensures AndBits(x, OneAt(k)) != Repeat(false, 8) <==> x[k]
  {
    var a, b := x[..k] + [x[k]], x[k + 1..];
    assert x == a + b;
    AndSplit(a, Repeat(false, k) + [true], b, Repeat(false, 7 - k));
    AndSplit(x[..k], Repeat(false, k), [x[k]], [true]);
    AndZeros(x[..k]);
    AndZeros(b);
    RepeatSplit(false, k, 1);
    RepeatSplit(false, k + 1, 7 - k);
    assert AndBits([x[k]], [true]) == [x[k]];
    assert AndBits(x, OneAt(k)) == (Repeat(false, k) + [x[k]]) + Repeat(false, 7 - k);
    RepeatAt(8, k);
  }

  /** Lines 184-203: the byte that starts at bit l1 of byte n. */
  function GetByte(data: seq<Byte>, n: nat, l1: nat): (b: Byte)
    requires l1 < 8 && 8 * n + l1 + 8 <= 8 * |data|
  {
    if l1 == 0 then data[n]
    else
      var l2 := 8 - l1;
      OrBits(Shl(data[n], l1), Shr(data[n + 1], l2))
  }

  /** readByte gives the next eight bits at every offset. */
  lemma GetByteReads(data: seq<Byte>, n: nat, l1: nat)
    requires l1 < 8 && 8 * n + l1 + 8 <= 8 * |data|
    ensures GetByte(data, n, l1) == AllBits(data)[8 * n + l1..8 * n + l1 + 8]
  {
    if l1 == 0 {
      AllBitsAt(data, n);
    } else {
      JoinHalves(data[n], data[n + 1], l1);
      TwoBytes(data, n, l1, data[n][l1..], data[n + 1][..l1]);
    }
  }

  lemma TwoBytes(data: seq<Byte>, n: nat, l1: nat, a: seq<bool>, b: seq<bool>)
    requires n + 1 < |data| && 0 < l1 < 8 && a == data[n][l1..] && b == data[n + 1][..l1]
    ensures a + b == AllBits(data)[8 * n + l1..8 * n + l1 + 8]
  {
    AllBitsAt(data, n);
    AllBitsAt(data, n + 1);
    NextEight(AllBits(data), n, l1);
  }

  lemma JoinHalves(hi: Byte, lo: Byte, l1: nat)
    requires 0 < l1 < 8
    ensures OrBits(Shl(hi, l1), Shr(lo, 8 - l1)) == hi[l1..] + lo[..l1]
  {
    OrSplit(hi[l1..], Repeat(false, 8 - l1), Repeat(false, l1), lo[..l1]);
    OrZeros(hi[l1..]);
    OrZeros(lo[..l1]);
  }

  lemma NextEight(bits: seq<bool>, n: nat, l1: nat)
    requires l1 < 8 && 8 * n + 16 <= |bits|
    ensures bits[8 * n + l1..8 * n + l1 + 8] == bits[8 * n..8 * n + 8][l1..] + bits[8 * n + 8..8 * n + 16][..l1]
  {}
}
