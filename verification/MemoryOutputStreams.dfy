/** inet::MemoryOutputStream: every write function appends the bits of its argument. */
module MemoryOutputStreams {
  import opened Binary
  import opened BitStrings
  import opened Sequences
  import opened MemoryStreamBits
  import opened MemoryStreamItems

  datatype Outcome<T> = Ok(value: T) | Thrown

  /** Where writeByte works. */
  predicate ByteOffset(length: nat) {
    length % 8 == 0 || length % 8 == 4
  }

  class MemoryOutputStream {
    var data: seq<Byte>
    var length: nat

    ghost predicate Valid()
      reads this
    {
      Padded(data, length / 8, length % 8)
    }

    /** There are just enough bytes. */
    ghost predicate Sized()
      reads this
    {
      |data| == if length % 8 == 0 then length / 8 else length / 8 + 1
    }

    /** The bits written so far. */
    ghost function Bits(): (s: seq<bool>)
      reads this
      requires Sized()
      ensures |s| == length
    {
      Contents(data, length)
    }

    constructor ()
      ensures Valid() && length == 0 && Bits() == []
    {
      data, length := [], 0;
    }

    method WriteBit(value: bool)
      requires Valid()
      modifies this
      ensures Valid() && Bits() == old(Bits()) + [value] && length == old(length) + 1
    {
      PutBitAppends(data, length / 8, length % 8, value);
      data := PutBit(data, length / 8, length % 8, value);
      length := length + 1;
    }

    /** Appends the byte at offsets 0 and 4; elsewhere the masks misplace its bits. */
    method WriteByte(value: Byte)
      requires Sized()
      modifies this
      ensures data == PutByte(old(data), old(length) / 8, old(length) % 8, value) && length == old(length) + 8
      ensures Sized()
      ensures old(Valid()) && ByteOffset(old(length)) ==> Valid() && Bits() == old(Bits()) + value
    {
      if Valid() && ByteOffset(length) { PutByteAppends(data, length / 8, length % 8, value); }
      data := PutByte(data, length / 8, length % 8, value);
      length := length + 8;
    }

    method WriteUint2(value: nat)
      requires Valid()
      modifies this
      ensures Valid() && Bits() == old(Bits()) + ToBits(value, 2)
    {
      SmallBits(value, 2);
      WriteBit(And(value, 2) != 0);
      WriteBit(And(value, 1) != 0);
    }

    method WriteUint4(value: nat)
      requires Valid()
      modifies this
      ensures Valid() && Bits() == old(Bits()) + ToBits(value, 4)
    {
      SmallBits(value, 4);
      WriteFourBits(And(value, 8) != 0, And(value, 4) != 0, And(value, 2) != 0, And(value, 1) != 0);
    }

    method WriteFourBits(a: bool, b: bool, c: bool, d: bool)
      requires Valid()
      modifies this
      ensures Valid() && Bits() == old(Bits()) + [a, b, c, d]
    {
      WriteBit(a);
      WriteBit(b);
      WriteBit(c);
      WriteBit(d);
    }

    /** n bits, most significant first; 1 << (n - 1) is an int, which limits n to 31. */
    method WriteNBitsOfUint64Be(value: nat, n: nat) returns (r: Outcome<()>)
      requires Valid() && (n <= 31 || n > 64)
      modifies this
      ensures Valid() && (r.Thrown? <==> n == 0 || n > 64)
      ensures r.Thrown? ==> Bits() == old(Bits())
      ensures r.Ok? ==> Bits() == old(Bits()) + ToBits(value, n)
    {
      if n == 0 || n > 64 { return Thrown; }
      var mul := Pow2(n - 1);
      var i := 0;
      while i < n
        invariant 0 <= i <= n && Valid() && mul == if i < n then Pow2(n - 1 - i) else 0
        invariant Bits() == old(Bits()) + ToBits(value, n)[..i]
      {
        NextBitOf(value, n, i);
        Regroup(old(Bits()), ToBits(value, n)[..i], [And(value, mul) != 0]);
        WriteBit(And(value, mul) != 0);
        mul := mul / 2;
        i := i + 1;
      }
      return Ok(());
    }

    /** The bytes were written one after the other behind n bytes and l1 bits. */
    ghost predicate Holds(start: seq<Byte>, n: nat, l1: nat, bytes: seq<Byte>)
      reads this
    {
      && l1 < 8 && |start| == (if l1 == 0 then n else n + 1)
      && length == 8 * (n + |bytes|) + l1 && data == PutBytes(start, n, l1, bytes)
    }

    method WriteNextByte(b: Byte, ghost start: seq<Byte>, ghost n: nat, ghost l1: nat, ghost bytes: seq<Byte>)
      requires Holds(start, n, l1, bytes)
      modifies this
      ensures Holds(start, n, l1, bytes + [b])
    {
      PutOneMore(start, n, l1, bytes, b);
      WriteByte(b);
    }

    /** writeUint16Be, 24Be, 32Be, 48Be and 64Be, for n bytes: byte n - 1 first. */
    method WriteUintBe(value: nat, n: nat)
      requires Valid()
      modifies this
      ensures Sized() && length == old(length) + 8 * n
      ensures data == PutBytes(old(data), old(length) / 8, old(length) % 8, BeBytes(value, n))
      ensures ByteOffset(old(length)) ==> Valid() && Bits() == old(Bits()) + ToBits(value, 8 * n)
    {
      ghost var start, whole, l1 := data, length / 8, length % 8;
      WriteBytesBe(value, n, start, whole, l1);
      BeBytesAre(value, n);
      AllWritten(start, whole, l1, BeBytes(value, n));
    }

    method WriteBytesBe(value: nat, n: nat, ghost start: seq<Byte>, ghost whole: nat, ghost l1: nat)
      requires Holds(start, whole, l1, [])
      modifies this
      ensures Holds(start, whole, l1, BeBytes(value, n))
    {
      ghost var bytes := BeBytes(value, n);
      var k := n;
      while k > 0
        invariant 0 <= k <= n && Holds(start, whole, l1, bytes[..n - k])
      {
        k := k - 1;
        WriteNextByte(ByteOf(value, k), start, whole, l1, bytes[..n - 1 - k]);
        OneMore(bytes, n - 1 - k);
      }
      assert bytes[..n] == bytes;
    }

    /** writeUint16Le, 24Le, 32Le, 48Le and 64Le: byte 0 first. */
    method WriteUintLe(value: nat, n: nat)
      requires Valid()
      modifies this
      ensures Sized() && length == old(length) + 8 * n
      ensures data == PutBytes(old(data), old(length) / 8, old(length) % 8, LeBytes(value, n))
      ensures ByteOffset(old(length)) ==> Valid() && Bits() == old(Bits()) + LeBits(value, n)
    {
      ghost var start, whole, l1 := data, length / 8, length % 8;
      WriteBytesLe(value, n, start, whole, l1);
      LeBytesAre(value, n);
      AllWritten(start, whole, l1, LeBytes(value, n));
    }

    method WriteBytesLe(value: nat, n: nat, ghost start: seq<Byte>, ghost whole: nat, ghost l1: nat)
      requires Holds(start, whole, l1, [])
      modifies this
      ensures Holds(start, whole, l1, LeBytes(value, n))
    {
      ghost var bytes := LeBytes(value, n);
      var k := 0;
      while k < n
        invariant 0 <= k <= n && Holds(start, whole, l1, bytes[..k])
      {
        WriteNextByte(ByteOf(value, k), start, whole, l1, bytes[..k]);
        OneMore(bytes, k);
        k := k + 1;
      }
      assert bytes[..n] == bytes;
    }

    method WriteString(s: seq<Byte>)
      requires Valid() && length % 8 == 0
      modifies this
      ensures Valid() && Bits() == old(Bits()) + (AllBits(s) + Repeat(false, 8))
    {
      AllBitsConcat(data, s);
      data := data + s;
      length := length + 8 * |s|;
      assert Bits() == old(Bits()) + AllBits(s);
      WriteByte(Repeat(false, 8));
      Regroup(old(Bits()), AllBits(s), Repeat(false, 8));
    }

    /** One item, by the function for its kind. */
    method Write(item: Item)
      requires Valid() && WritableAt(item, length)
      modifies this
      ensures Valid() && Bits() == old(Bits()) + Encode(item)
    {
      match item
      case Bit(b) => WriteBit(b);
      case Uint2(v) => WriteUint2(v);
      case Uint4(v) => WriteUint4(v);
      case NBits(v, n) => var r := WriteNBitsOfUint64Be(v, n);
      case Uint8(v) => WriteByte(ToBits(v, 8));
      case UintBe(v, n) => WriteUintBe(v, n);
      case UintLe(v, n) => WriteUintLe(v, n);
      case Text(s) => WriteString(s);
    }
  }

  /** The single-bit masks of a 2- or 4-bit number. */
  lemma SmallBits(v: nat, n: nat)
    ensures n == 2 ==> ToBits(v, n) == [And(v, 2) != 0, And(v, 1) != 0]
    ensures n == 4 ==> ToBits(v, n) == [And(v, 8) != 0, And(v, 4) != 0, And(v, 2) != 0, And(v, 1) != 0]
  {
    assert Pow2(0) == 1 && Pow2(1) == 2 && Pow2(2) == 4 && Pow2(3) == 8;
    AndBit(v, 0);
    AndBit(v, 1);
    AndBit(v, 2);
    AndBit(v, 3);
    if n == 2 || n == 4 {
      forall i | 0 <= i < n ensures ToBits(v, n)[i] == (And(v, Pow2(n - 1 - i)) != 0) {
        BitsAt(v, n, i);
        AndBit(v, n - 1 - i);
      }
    }
  }

  lemma NextBitOf(value: nat, n: nat, i: nat)
    requires i < n
    ensures ToBits(value, n)[..i + 1] == ToBits(value, n)[..i] + [And(value, Pow2(n - 1 - i)) != 0]
  {
    AndBit(value, n - 1 - i);
    BitsAt(value, n, i);
  }

  /** The bytes of a number, highest first and lowest first. */
  ghost function BeBytes(value: nat, n: nat): (bytes: seq<Byte>) {
    seq(n, i requires 0 <= i < n => ByteOf(value, n - 1 - i))
  }

  ghost function LeBytes(value: nat, n: nat): (bytes: seq<Byte>) {
    seq(n, i requires 0 <= i < n => ByteOf(value, i))
  }

  lemma PutOneMore(data: seq<Byte>, n: nat, l1: nat, bytes: seq<Byte>, b: Byte)
    requires l1 < 8 && |data| == (if l1 == 0 then n else n + 1)
    ensures PutBytes(data, n, l1, bytes + [b]) == PutByte(PutBytes(data, n, l1, bytes), n + |bytes|, l1, b)
  {
    assert (bytes + [b])[..|bytes|] == bytes;
  }

  lemma OneMore(bytes: seq<Byte>, m: nat)
    requires m < |bytes|
    ensures bytes[..m] + [bytes[m]] == bytes[..m + 1]
  {}

  /** At the offsets where bytes are written right. */
  lemma AllWritten(data: seq<Byte>, n: nat, l1: nat, bytes: seq<Byte>)
    requires Padded(data, n, l1)
    ensures l1 == 0 || l1 == 4 ==>
              var d := PutBytes(data, n, l1, bytes);
              && Padded(d, n + |bytes|, l1)
              && Contents(d, 8 * (n + |bytes|) + l1) == Contents(data, 8 * n + l1) + AllBits(bytes)
  {
    if l1 == 0 || l1 == 4 { PutBytesAppends(data, n, l1, bytes); }
  }

  lemma {:induction false} LeBytesAre(value: nat, n: nat)
    ensures AllBits(LeBytes(value, n)) == LeBits(value, n)
  {
    if n > 0 {
      LeBytesAre(value, n - 1);
      assert LeBytes(value, n)[..n - 1] == LeBytes(value, n - 1);
    }
  }

  lemma BeBytesAre(value: nat, n: nat)
    ensures AllBits(BeBytes(value, n)) == ToBits(value, 8 * n)
  {
    BeBytesFrom(value, n, n);
    assert BeBytes(value, n)[..n] == BeBytes(value, n);
    DivUnique(value, Pow2(0), value, 0);
  }

  lemma {:induction false} BeBytesFrom(value: nat, n: nat, m: nat)
    requires m <= n
    ensures AllBits(BeBytes(value, n)[..m]) == FirstBytes(value, n - m, n)
  {
    if m > 0 {
      var bytes := BeBytes(value, n);
      BeBytesFrom(value, n, m - 1);
      assert bytes[..m] == bytes[..m - 1] + [bytes[m - 1]];
      AllBitsPush(bytes[..m - 1], bytes[m - 1]);
      BeStep(value, n - m + 1, n);
    }
  }

  /** The bits of bytes n - 1 down to k. */
  ghost function FirstBytes(value: nat, k: nat, n: nat): seq<bool>
    requires k <= n
  {
    DivShrinks(value, Pow2(8 * k));
    ToBits(value / Pow2(8 * k), 8 * (n - k))
  }

  lemma BeStep(value: nat, k: nat, n: nat)
    requires 0 < k <= n
    ensures FirstBytes(value, k - 1, n) == FirstBytes(value, k, n) + ByteOf(value, k - 1)
  {
    var p := Pow2(8 * (k - 1));
    DivShrinks(value, p);
    var w := value / p;
    BitsSplit(w, 8 * (n - k), 8);
    assert Pow2(8 * k) == p * Pow2(8) by { PowAdd(8 * (k - 1), 8); }
    DivDiv(value, p, Pow2(8));
    DivShrinks(w, Pow2(8));
  }
}
