/**
 inet::MemoryInputStream: every read function returns what the next bits denote. Reading back
 what a MemoryOutputStream holds, call by call, returns what was written.
 */
module MemoryInputStreams {
  import opened Binary
  import opened BitStrings
  import opened Sequences
  import opened MemoryStreamBits
  import opened MemoryStreamItems
  import opened MemoryOutputStreams

  class MemoryInputStream {
    const data: seq<Byte>
    const length: nat
    var position: nat
    var isReadBeyondEnd: bool

    /** The first length bits of the data. */
    ghost const bits: seq<bool>

    ghost predicate Valid()
      reads this`position
    {
      position <= length == |bits| && length <= 8 * |data| && bits == AllBits(data)[..length]
    }

    constructor (data: seq<Byte>, length: nat)
      requires length <= 8 * |data|
      ensures Valid() && position == 0 && !isReadBeyondEnd
      ensures this.data == data && this.length == length && bits == AllBits(data)[..length]
    {
      this.data, this.length, bits := data, length, AllBits(data)[..length];
      position, isReadBeyondEnd := 0, false;
    }

    /** The effect of a read of n bits on the position and on the flag. */
    twostate predicate Advanced(n: nat)
      reads this
    {
      && Valid()
      && position == After(bits, old(position), n)
      && isReadBeyondEnd == (old(isReadBeyondEnd) || old(position) + n > length)
    }

    method ReadBit() returns (value: bool)
      requires Valid()
      modifies this
      ensures Advanced(1) && value == (old(position) < length && bits[old(position)])
    {
      if position == length {
        isReadBeyondEnd := true;
        return false;
      }
      BitRead(data, bits, position);
      value := GetBit(data, position / 8, position % 8);
      position := position + 1;
    }

    method ReadByte() returns (value: Byte)
      requires Valid()
      modifies this
      ensures Advanced(8) && value == NextByte(bits, old(position))
    {
      if position + 8 > length {
        isReadBeyondEnd := true;
        position := length;
        return Repeat(false, 8);
      }
      ByteRead(data, bits, position);
      value := GetByte(data, position / 8, position % 8);
      position := position + 8;
    }

    method ReadUint2() returns (value: nat)
      requires Valid()
      modifies this
      ensures Advanced(2) && value == FromBits(NextBits(bits, old(position), 2))
    {
      var a := ReadBit();
      var b := ReadBit();
      TwoBits(bits, old(position), a, b);
      TwoBitValue(a, b);
      value := Or(if a then 2 else 0, if b then 1 else 0);
    }

    method ReadUint4() returns (value: nat)
      requires Valid()
      modifies this
      ensures Advanced(4) && value == FromBits(NextBits(bits, old(position), 4))
    {
      var a, b, c, d := ReadFourBits();
      FourBitValue(a, b, c, d);
      value := Or(Or(Or(if a then 8 else 0, if b then 4 else 0), if c then 2 else 0), if d then 1 else 0);
    }

    method ReadFourBits() returns (a: bool, b: bool, c: bool, d: bool)
      requires Valid()
      modifies this
      ensures Advanced(4) && NextBits(bits, old(position), 4) == [a, b, c, d]
    {
      a := ReadBit();
      b := ReadBit();
      c := ReadBit();
      d := ReadBit();
      FourBits(bits, old(position), a, b, c, d);
    }

    method ReadNBitsToUint64Be(n: nat) returns (r: Outcome<nat>)
      requires Valid() && (n <= 31 || n > 64)
      modifies this
      ensures r.Thrown? <==> n == 0 || n > 64
      ensures r.Thrown? ==> Advanced(0)
      ensures r.Ok? ==> Advanced(n) && r.value == BitSum(bits, old(position), n, n)
    {
      if n == 0 || n > 64 { return Thrown; }
      var mul, num := Pow2(n - 1), 0;
      var i := 0;
      while i < n
        invariant 0 <= i <= n && Advanced(i) && mul == if i < n then Pow2(n - 1 - i) else 0
        invariant num == BitSum(bits, old(position), n, i)
      {
        num := OrNextBitBe(num, mul, old(position), n, i, old(isReadBeyondEnd));
        mul := mul / 2;
        i := i + 1;
      }
      return Ok(num);
    }

    /** Lines 477-478. */
    method OrNextBitBe(num: nat, mul: nat, ghost pos: nat, ghost n: nat, ghost i: nat, ghost flag: bool)
      returns (x: nat)
      requires i < n && ReadTo(pos, i, flag) && mul == Pow2(n - 1 - i) && num == BitSum(bits, pos, n, i)
      modifies this
      ensures ReadTo(pos, i + 1, flag) && x == BitSum(bits, pos, n, i + 1)
    {
      x := num;
      var b := ReadBit();
      if b { x := Or(num, mul); }
    }

    /** n bits have been read from pos on, with the flag before them. */
    ghost predicate ReadTo(pos: nat, n: nat, flag: bool)
      reads this
    {
      Valid() && position == After(bits, pos, n) && isReadBeyondEnd == (flag || pos + n > length)
    }

    /** The next byte of a number whose bytes start at pos. */
    method ReadByteOf(ghost pos: nat, ghost k: nat, ghost flag: bool) returns (b: Byte)
      requires ReadTo(pos, 8 * k, flag)
      modifies this
      ensures ReadTo(pos, 8 * (k + 1), flag) && b == NextByte(bits, pos + 8 * k)
    {
      SameByte(bits, pos, position, k);
      b := ReadByte();
    }

    /** value |= static_cast<uint64_t>(readByte()) << shift. */
    method OrNextByteBe(value: nat, n: nat, k: nat, ghost pos: nat, ghost flag: bool) returns (v: nat)
      requires k < n && ReadTo(pos, 8 * k, flag) && value == BeSum(bits, pos, n, k)
      modifies this
      ensures ReadTo(pos, 8 * (k + 1), flag) && v == BeSum(bits, pos, n, k + 1)
    {
      var shift := 8 * (n - 1 - k);
      var b := ReadByteOf(pos, k, flag);
      BeSumMore(bits, pos, n, k, b, shift);
      v := Or(value, ShiftedByte(b, shift));
    }

    method OrNextByteLe(value: nat, shift: nat, ghost pos: nat, ghost k: nat, ghost flag: bool) returns (v: nat)
      requires ReadTo(pos, 8 * k, flag) && shift == 8 * k && value == LeSum(bits, pos, k)
      modifies this
      ensures ReadTo(pos, 8 * (k + 1), flag) && v == LeSum(bits, pos, k + 1)
    {
      var b := ReadByteOf(pos, k, flag);
      LeSumNext(bits, pos, k, b, shift);
      v := Or(value, ShiftedByte(b, shift));
    }

    /** readUint16Be, 24Be, 32Be, 48Be and 64Be, for n bytes. */
    method ReadUintBe(n: nat) returns (value: nat)
      requires Valid()
      modifies this
      ensures Advanced(8 * n) && value == BeSum(bits, old(position), n, n)
    {
      ghost var pos, flag := position, isReadBeyondEnd;
      value := 0;
      var k := 0;
      BeSumNone(bits, pos, n);
      while k < n
        invariant 0 <= k <= n && ReadTo(pos, 8 * k, flag) && value == BeSum(bits, pos, n, k)
      {
        value := OrNextByteBe(value, n, k, pos, flag);
        k := k + 1;
      }
    }

    /** readUint16Le, 24Le, 32Le, 48Le and 64Le. */
    method ReadUintLe(n: nat) returns (value: nat)
      requires Valid()
      modifies this
      ensures Advanced(8 * n) && value == LeSum(bits, old(position), n)
    {
      ghost var pos := position;
      value := 0;
      var k := 0;
      while k < n
        invariant 0 <= k <= n && ReadTo(pos, 8 * k, old(isReadBeyondEnd))
        invariant value == LeSum(bits, pos, k)
      {
        value := OrNextByteLe(value, 8 * k, pos, k, old(isReadBeyondEnd));
        k := k + 1;
      }
    }

    method ReadString() returns (s: seq<Byte>)
      requires Valid()
      modifies this
      ensures s == NextString(bits, old(position)) && Advanced(8 * |s| + 8)
    {
      s := [];
      ghost var start, pos := position, position;
      var b := ReadByte();
      StringStart(bits, start);
      while b != Repeat(false, 8)
        invariant Valid() && start <= pos <= length && pos == start + 8 * |s|
        invariant b == NextByte(bits, pos) && position == After(bits, pos, 8)
        invariant isReadBeyondEnd == (old(isReadBeyondEnd) || pos + 8 > length)
        invariant s + NextString(bits, pos) == NextString(bits, start)
        decreases length - pos
      {
        StringStep(bits, pos, s, b);
        s := s + [b];
        pos := pos + 8;
        b := ReadByte();
      }
      StringEnd(bits, pos, s);
    }

    /** One item, by the function for its kind. */
    method Read(kind: Kind) returns (item: Item)
      requires Valid() && (kind.KNBits? ==> 1 <= kind.n <= 31)
      modifies this
      ensures Valid() && (item, position) == Decode(kind, bits, old(position))
      ensures isReadBeyondEnd == (old(isReadBeyondEnd) || Beyond(kind, bits, old(position)))
    {
      match kind
      case KBit => var b := ReadBit(); item := Bit(b);
      case KUint2 => var v := ReadUint2(); item := Uint2(v);
      case KUint4 => var v := ReadUint4(); item := Uint4(v);
      case KNBits(n) => var r := ReadNBitsToUint64Be(n); item := NBits(r.value, n);
      case KUint8 => var b := ReadByte(); item := Uint8(FromBits(b));
      case KUintBe(n) => var v := ReadUintBe(n); item := UintBe(v, n);
      case KUintLe(n) => var v := ReadUintLe(n); item := UintLe(v, n);
      case KText => var s := ReadString(); item := Text(s);
    }
  }

  lemma BitRead(data: seq<Byte>, bits: seq<bool>, pos: nat)
    requires pos < |bits| <= 8 * |data| && bits == AllBits(data)[..|bits|]
    ensures GetBit(data, pos / 8, pos % 8) == bits[pos]
  {
    var n, k := pos / 8, pos % 8;
    GetBitReads(data, n, k);
    assert pos == 8 * n + k;
    assert AllBits(data)[pos] == AllBits(data)[..|bits|][pos];
  }

  lemma PartOfPrefix(s: seq<bool>, m: nat, p: nat)
    requires p + 8 <= m <= |s|
    ensures s[..m][p..p + 8] == s[p..p + 8]
  {}

  lemma ByteRead(data: seq<Byte>, bits: seq<bool>, pos: nat)
    requires pos + 8 <= |bits| <= 8 * |data| && bits == AllBits(data)[..|bits|]
    ensures GetByte(data, pos / 8, pos % 8) == bits[pos..pos + 8]
  {
    var n, l1 := pos / 8, pos % 8;
    assert pos == 8 * n + l1;
    GetByteReads(data, n, l1);
    PartOfPrefix(AllBits(data), |bits|, pos);
  }

  lemma StringStart(bits: seq<bool>, p: nat)
    ensures [] + NextString(bits, p) == NextString(bits, p)
  {}

  lemma StringEnd(bits: seq<bool>, p: nat, s: seq<Byte>)
    requires NextByte(bits, p) == Repeat(false, 8)
    ensures s + NextString(bits, p) == s
  {}

  lemma StringStep(bits: seq<bool>, p: nat, s: seq<Byte>, b: Byte)
    requires b == NextByte(bits, p) != Repeat(false, 8)
    ensures p + 8 <= |bits| && s + NextString(bits, p) == (s + [b]) + NextString(bits, p + 8)
  {
    Regroup(s, [b], NextString(bits, p + 8));
  }

  // ---- the or-ing of bits and bytes -------------------------------------------------------------

  lemma TwoBits(bits: seq<bool>, pos: nat, a: bool, b: bool)
    requires a == (pos < |bits| && bits[pos]) && b == (pos + 1 < |bits| && bits[pos + 1])
    ensures NextBits(bits, pos, 2) == [a, b]
  {
    assert NextBits(bits, pos, 1) == [a];
  }

  lemma TwoBitValue(a: bool, b: bool)
    ensures FromBits([a, b]) == Or(if a then 2 else 0, if b then 1 else 0)
  {
    PushBit([], a);
    PushBit([a], b);
    assert [] + [a] == [a] && [a] + [b] == [a, b];
    OrDisjoint(if a then 2 else 0, if b then 1 else 0, 1);
  }

  lemma FourBits(bits: seq<bool>, pos: nat, a: bool, b: bool, c: bool, d: bool)
    requires a == (pos < |bits| && bits[pos]) && b == (pos + 1 < |bits| && bits[pos + 1])
    requires c == (pos + 2 < |bits| && bits[pos + 2]) && d == (pos + 3 < |bits| && bits[pos + 3])
    ensures NextBits(bits, pos, 4) == [a, b, c, d]
  {
    assert NextBits(bits, pos, 1) == [a];
    assert NextBits(bits, pos, 2) == [a, b];
    assert NextBits(bits, pos, 3) == [a, b, c];
  }

  lemma OrOfFour(x: nat, y: nat, z: nat, w: nat)
    requires (x == 0 || x == 8) && (y == 0 || y == 4) && (z == 0 || z == 2) && (w == 0 || w == 1)
    ensures Or(Or(Or(x, y), z), w) == x + y + z + w
  {
    var u, v := x + y, x + y + z;
    FourPlaces(x, y, z, w, u, v);
    OrEight(x, y);
    OrFour(u, z);
    OrTwo(v, w);
  }

  lemma FourPlaces(x: nat, y: nat, z: nat, w: nat, u: nat, v: nat)
    requires (x == 0 || x == 8) && (y == 0 || y == 4) && (z == 0 || z == 2) && (w == 0 || w == 1)
    requires u == x + y && v == x + y + z
    ensures x % 8 == 0 && y < 8 && u % 4 == 0 && z < 4 && v % 2 == 0 && w < 2
  {}

  lemma OrEight(x: nat, y: nat)
    requires x % 8 == 0 && y < 8
    ensures Or(x, y) == x + y
  {
    OrBelow(x, y, 3, 8);
  }

  lemma OrFour(x: nat, y: nat)
    requires x % 4 == 0 && y < 4
    ensures Or(x, y) == x + y
  {
    OrBelow(x, y, 2, 4);
  }

  lemma OrTwo(x: nat, y: nat)
    requires x % 2 == 0 && y < 2
    ensures Or(x, y) == x + y
  {
    OrBelow(x, y, 1, 2);
  }

  lemma OrBelow(x: nat, y: nat, n: nat, p: int)
    requires p == Pow2(n) && x % p == 0 && y < p
    ensures Or(x, y) == x + y
  {
    OrDisjoint(x, y, n);
  }

  lemma FourBitValue(a: bool, b: bool, c: bool, d: bool)
    ensures FromBits([a, b, c, d]) ==
            Or(Or(Or(if a then 8 else 0, if b then 4 else 0), if c then 2 else 0), if d then 1 else 0)
  {
    PushBit([], a);
    PushBit([a], b);
    PushBit([a, b], c);
    PushBit([a, b, c], d);
    assert [] + [a] == [a] && [a] + [b] == [a, b] && [a, b] + [c] == [a, b, c] && [a, b, c] + [d] == [a, b, c, d];
    OrOfFour(if a then 8 else 0, if b then 4 else 0, if c then 2 else 0, if d then 1 else 0);
  }

  lemma BeSumNone(bits: seq<bool>, pos: nat, n: nat)
    ensures BeSum(bits, pos, n, 0) == 0
  {}

  lemma BeSumMore(bits: seq<bool>, pos: nat, n: nat, k: nat, b: Byte, shift: nat)
    requires k < n && b == NextByte(bits, pos + 8 * k) && shift == 8 * (n - 1 - k)
    ensures BeSum(bits, pos, n, k + 1) == Or(BeSum(bits, pos, n, k), ShiftedByte(b, shift))
  {}

  lemma LeSumNext(bits: seq<bool>, pos: nat, k: nat, b: Byte, shift: nat)
    requires b == NextByte(bits, pos + 8 * k) && shift == 8 * k
    ensures LeSum(bits, pos, k + 1) == Or(LeSum(bits, pos, k), ShiftedByte(b, shift))
  {}

  /** Byte k of a run, read from where the first k bytes ended. */
  lemma SameByte(bits: seq<bool>, pos: nat, start: nat, k: nat)
    requires start == After(bits, pos, 8 * k)
    ensures NextByte(bits, start) == NextByte(bits, pos + 8 * k)
    ensures After(bits, start, 8) == After(bits, pos, 8 * (k + 1))
  {}

  // ---- there and back ---------------------------------------------------------------------------

  /** Write the items, then read the same kinds of items from the written data. */
  method WriteAndRead(items: seq<Item>) returns (values: seq<Item>, beyond: bool, unread: nat)
    requires Writable(items)
    ensures values == ReducedAll(items) && (AllFit(items) ==> values == items)
    ensures !beyond && unread == 0
  {
    var output := WriteAll(items);
    var input := new MemoryInputStream(output.data, output.length);
    values := ReadAll(input, items);
    beyond, unread := input.isReadBeyondEnd, input.length - input.position;
    if AllFit(items) { ReducedSame(items); }
  }

  method ReadAll(input: MemoryInputStream, items: seq<Item>) returns (values: seq<Item>)
    requires Writable(items) && input.Valid() && input.position == 0 && !input.isReadBeyondEnd
    requires input.bits == EncodeAll(items)
    modifies input
    ensures values == ReducedAll(items)
    ensures input.position == input.length && !input.isReadBeyondEnd
  {
    values := [];
    var i := 0;
    assert items[..0] == [];
    while i < |items|
      invariant 0 <= i <= |items| && values == ReducedAll(items[..i])
      invariant input.Valid() && input.position == |EncodeAll(items[..i])| && !input.isReadBeyondEnd
    {
      var item := ReadItem(input, items, i);
      ReducedNext(items, i);
      values := values + [item];
      i := i + 1;
    }
    assert items[..i] == items;
  }

  method ReadItem(input: MemoryInputStream, items: seq<Item>, i: nat) returns (item: Item)
    requires Writable(items) && i < |items| && input.Valid() && input.bits == EncodeAll(items)
    requires input.position == |EncodeAll(items[..i])| && !input.isReadBeyondEnd
    modifies input
    ensures input.Valid() && input.position == |EncodeAll(items[..i + 1])| && !input.isReadBeyondEnd
    ensures item == Reduced(items[i])
  {
    Readable(items, i);
    ReadNext(items, i, input.position, input.bits);
    item := input.Read(KindOf(items[i]));
  }

  lemma NextStands(items: seq<Item>, i: nat, pos: nat, bits: seq<bool>)
    requires i < |items| && pos == |EncodeAll(items[..i])| && bits == EncodeAll(items)
    ensures Stands(bits, pos, Encode(items[i])) && |EncodeAll(items[..i + 1])| == pos + |Encode(items[i])|
  {
    ItemStands(items, i, pos, Encode(items[i]));
    EncodeNext(items, i);
  }

  lemma Readable(items: seq<Item>, i: nat)
    requires Writable(items) && i < |items|
    ensures items[i].NBits? ==> 1 <= items[i].n <= 31
    ensures items[i].Text? ==> Repeat(false, 8) !in items[i].s
  {
    assert WritableAt(items[i], |EncodeAll(items[..i])|);
  }

  lemma ReadNext(items: seq<Item>, i: nat, pos: nat, bits: seq<bool>)
    requires Writable(items) && i < |items| && pos == |EncodeAll(items[..i])| && bits == EncodeAll(items)
    ensures !Beyond(KindOf(items[i]), bits, pos)
    ensures Decode(KindOf(items[i]), bits, pos) == (Reduced(items[i]), |EncodeAll(items[..i + 1])|)
  {
    Readable(items, i);
    NextStands(items, i, pos, bits);
    DecodeAt(items[i], bits, pos, |EncodeAll(items[..i + 1])|);
  }

  lemma DecodeAt(item: Item, bits: seq<bool>, pos: nat, next: nat)
    requires Stands(bits, pos, Encode(item)) && (item.Text? ==> Repeat(false, 8) !in item.s)
    requires next == pos + |Encode(item)|
    ensures Decode(KindOf(item), bits, pos) == (Reduced(item), next) && !Beyond(KindOf(item), bits, pos)
  {
    DecodeEncode(item, bits, pos);
  }

  method WriteAll(items: seq<Item>) returns (output: MemoryOutputStream)
    requires Writable(items)
    ensures fresh(output) && output.Valid() && output.Bits() == EncodeAll(items)
  {
    output := new MemoryOutputStream();
    var i := 0;
    assert items[..0] == [];
    while i < |items|
      invariant 0 <= i <= |items| && fresh(output) && output.Valid() && output.Bits() == EncodeAll(items[..i])
    {
      EncodeNext(items, i);
      output.Write(items[i]);
      i := i + 1;
    }
    assert items[..i] == items;
  }
}
