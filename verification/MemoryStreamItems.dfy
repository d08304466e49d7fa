/** What reading finds in a bit string, and the encodings that the write functions append. */
module MemoryStreamItems {
  import opened Binary
  import opened BitStrings
  import opened Sequences

  // ---- what the read functions see ------------------------------------------------------------

  /** n bits from a position on; past the end they read as zero. */
  function NextBits(bits: seq<bool>, pos: nat, n: nat): (s: seq<bool>)
    ensures |s| == n
  {
    if n == 0 then [] else NextBits(bits, pos, n - 1) + [pos + n - 1 < |bits| && bits[pos + n - 1]]
  }

  /** A byte, read as zero unless all its bits are there. */
  function NextByte(bits: seq<bool>, pos: nat): (b: Byte) {
    if pos + 8 <= |bits| then bits[pos..pos + 8] else Repeat(false, 8)
  }

  function NextBytes(bits: seq<bool>, pos: nat, n: nat): (s: seq<bool>)
    ensures |s| == 8 * n
  {
    if n == 0 then [] else NextBytes(bits, pos, n - 1) + NextByte(bits, pos + 8 * (n - 1))
  }

  /** A zero-terminated string; the end of the stream also ends it. */
  function NextString(bits: seq<bool>, pos: nat): (s: seq<Byte>)
    decreases |bits| - pos
  {
    if pos + 8 > |bits| || bits[pos..pos + 8] == Repeat(false, 8) then []
    else [bits[pos..pos + 8]] + NextString(bits, pos + 8)
  }

  /** Where a read of n bits, or of n whole bytes, stops. */
  function After(bits: seq<bool>, pos: nat, n: nat): (p: nat) {
    if pos + n <= |bits| then pos + n else |bits|
  }

  // ---- little endian ----------------------------------------------------------------------------

  /** Byte k of a number, counted from the lowest. */
  function ByteOf(value: nat, k: nat): (b: Byte) {
    DivShrinks(value, Pow2(8 * k));
    ToBits(value / Pow2(8 * k), 8)
  }

  /** The bytes of v, least significant byte first. */
  function LeBits(v: nat, n: nat): (s: seq<bool>)
    ensures |s| == 8 * n
  {
    if n == 0 then [] else LeBits(v, n - 1) + ByteOf(v, n - 1)
  }

  function LeValue(s: seq<bool>): (v: nat)
    ensures v < Pow2(|s|)
  {
    if |s| < 8 then 0
    else
      var m := |s| - 8;
      LeGrows(LeValue(s[..m]), FromBits(s[m..]), m);
      LeValue(s[..m]) + FromBits(s[m..]) * Pow2(m)
  }

  lemma LeGrows(low: nat, byte: nat, m: nat)
    requires low < Pow2(m) && byte < Pow2(8)
    ensures 0 <= byte * Pow2(m) && low + byte * Pow2(m) < Pow2(m + 8)
  {
    PowAdd(m, 8);
    MulNonNeg(byte, Pow2(m));
    MulNonNeg(Pow2(8) - 1 - byte, Pow2(m));
    assert (Pow2(8) - 1 - byte) * Pow2(m) == Pow2(m) * Pow2(8) - Pow2(m) - byte * Pow2(m);
  }

  lemma LeLast(s: seq<bool>, b: seq<bool>)
    requires |b| == 8
    ensures LeValue(s + b) == LeValue(s) + FromBits(b) * Pow2(|s|)
  {
    assert (s + b)[..|s|] == s && (s + b)[|s|..] == b;
  }

  lemma {:induction false} LeRoundTrip(v: nat, n: nat)
    ensures LeValue(LeBits(v, n)) == v % Pow2(8 * n)
  {
    if n > 0 {
      LeRoundTrip(v, n - 1);
      LeTrip(v, n - 1, 8 * n);
    }
  }

  lemma LowBytes(v: nat, p: int, m: nat)
    requires p == Pow2(m)
    ensures v % Pow2(m + 8) == v % p + ((v / p) % Pow2(8)) * p
  {
    PowAdd(m, 8);
    DivDiv(v, p, Pow2(8));
  }

  /** One more byte of v. */
  lemma LeTrip(v: nat, k: nat, m: nat)
    requires LeValue(LeBits(v, k)) == v % Pow2(8 * k) && m == 8 * k + 8
    ensures LeValue(LeBits(v, k + 1)) == v % Pow2(m)
  {
    var p := Pow2(8 * k);
    DivShrinks(v, p);
    LeLast(LeBits(v, k), ToBits(v / p, 8));
    BackFromBits(v / p, 8);
    LowBytes(v, p, 8 * k);
  }

  // ---- the or-ing of bits and bytes -------------------------------------------------------------

  /** A byte of a number, at its place: static_cast<uint64_t>(byte) << m. */
  function ShiftedByte(b: Byte, m: nat): (x: nat) {
    if m == 0 then FromBits(b) else 2 * ShiftedByte(b, m - 1)
  }

  lemma {:induction false} ShiftedByteIs(b: Byte, m: nat)
    ensures ShiftedByte(b, m) == FromBits(b) * Pow2(m)
  {
    if m > 0 {
      ShiftedByteIs(b, m - 1);
      Doubling(FromBits(b), Pow2(m - 1));
    }
  }

  /** The first i of n bits read, or-ed together from the highest mask down. */
  function BitSum(bits: seq<bool>, pos: nat, n: nat, i: nat): (x: nat)
    requires i <= n
    decreases i
  {
    if i == 0 then 0
    else
      var x := BitSum(bits, pos, n, i - 1);
      if pos + i - 1 < |bits| && bits[pos + i - 1] then Or(x, Pow2(n - i)) else x
  }

  /** The first k of n bytes read, highest byte first. */
  function BeSum(bits: seq<bool>, pos: nat, n: nat, k: nat): (x: nat)
    requires k <= n
    decreases k
  {
    if k == 0 then 0 else Or(BeSum(bits, pos, n, k - 1), ShiftedByte(NextByte(bits, pos + 8 * (k - 1)), 8 * (n - k)))
  }

  /** The first k bytes read, lowest byte first. */
  function LeSum(bits: seq<bool>, pos: nat, k: nat): (x: nat) {
    if k == 0 then 0 else Or(LeSum(bits, pos, k - 1), ShiftedByte(NextByte(bits, pos + 8 * (k - 1)), 8 * (k - 1)))
  }

  lemma PushBit(s: seq<bool>, b: bool)
    ensures FromBits(s + [b]) == 2 * FromBits(s) + if b then 1 else 0
  {
    assert (s + [b])[..|s|] == s;
  }

  /** Or-ing in the next lower bit, byte, or the next higher byte. */
  lemma OrNextBit(f: nat, j: nat, num: nat, p: int)
    requires p == Pow2(j) && num == f * (2 * p)
    ensures Or(num, p) == (2 * f + 1) * p && num == (2 * f) * p
  {
    assert f * (2 * p) == (2 * f) * p;
    assert (2 * f + 1) * p == (2 * f) * p + p;
    DivUnique(num, 2 * p, f, 0);
    OrDisjoint(num, p, j + 1);
  }

  lemma OrNextByte(f: nat, g: nat, m: nat, value: nat, p: int, q: int)
    requires p == Pow2(m) && q == Pow2(8) && value == f * (p * q) && g < q
    ensures 0 <= g * p && Or(value, g * p) == (f * q + g) * p
  {
    assert Pow2(m + 8) == p * q by { PowAdd(m, 8); }
    LeGrows(0, g, m);
    BeCore(f, g, p, q, value);
    OrDisjoint(value, g * p, m + 8);
  }

  lemma BeCore(f: int, g: int, p: int, q: int, value: int)
    requires p >= 1 && q >= 1 && value == f * (p * q)
    ensures p * q > 0 && value % (p * q) == 0 && (f * q + g) * p == value + g * p
  {
    assert (f * q) * p == f * (p * q);
    assert (f * q + g) * p == (f * q) * p + g * p;
    DivUnique(value, p * q, f, 0);
  }

  lemma OrHighByte(g: nat, m: nat, value: nat, p: int)
    requires p == Pow2(m) && value < p
    ensures 0 <= g * p && Or(value, g * p) == value + g * p
  {
    MulNonNeg(g, p);
    DivUnique(g * p, p, g, 0);
    OrDisjoint(g * p, value, m);
    OrComm(value, g * p);
  }

  /** The three sums in terms of the bits read. */
  lemma {:induction false} BitSumIs(bits: seq<bool>, pos: nat, n: nat, i: nat)
    requires i <= n
    ensures BitSum(bits, pos, n, i) == FromBits(NextBits(bits, pos, i)) * Pow2(n - i)
    decreases i
  {
    if i > 0 {
      BitSumIs(bits, pos, n, i - 1);
      var s, b, p := NextBits(bits, pos, i - 1), pos + i - 1 < |bits| && bits[pos + i - 1], Pow2(n - i);
      assert Pow2(n - (i - 1)) == 2 * p;
      PushBit(s, b);
      OrNextBit(FromBits(s), n - i, BitSum(bits, pos, n, i - 1), p);
    }
  }

  lemma {:induction false} BeSumIs(bits: seq<bool>, pos: nat, n: nat, k: nat, m: nat)
    requires k <= n && m == 8 * (n - k)
    ensures BeSum(bits, pos, n, k) == FromBits(NextBytes(bits, pos, k)) * Pow2(m)
    decreases k
  {
    if k > 0 {
      var s, b, x := NextBytes(bits, pos, k - 1), NextByte(bits, pos + 8 * (k - 1)), BeSum(bits, pos, n, k - 1);
      BeSumIs(bits, pos, n, k - 1, m + 8);
      BeSumStep(s, b, m, x);
      BeSumLast(bits, pos, n, k, m, s, b, x);
    }
  }

  lemma BeSumLast(bits: seq<bool>, pos: nat, n: nat, k: nat, m: nat, s: seq<bool>, b: Byte, x: nat)
    requires 0 < k <= n && m == 8 * (n - k) && b == NextByte(bits, pos + 8 * (k - 1))
    requires s == NextBytes(bits, pos, k - 1) && x == BeSum(bits, pos, n, k - 1)
    ensures BeSum(bits, pos, n, k) == Or(x, ShiftedByte(b, m)) && NextBytes(bits, pos, k) == s + b
  {}

  lemma BeSumStep(s: seq<bool>, b: Byte, m: nat, value: nat)
    requires value == FromBits(s) * Pow2(m + 8)
    ensures Or(value, ShiftedByte(b, m)) == FromBits(s + b) * Pow2(m)
  {
    var f, g, p, q := FromBits(s), FromBits(b), Pow2(m), Pow2(8);
    assert Pow2(m + 8) == p * q by { PowAdd(m, 8); }
    OrNextByte(f, g, m, value, p, q);
    ShiftedByteIs(b, m);
    ValueOfConcat(s, b);
  }

  lemma {:induction false} LeSumIs(bits: seq<bool>, pos: nat, k: nat)
    ensures LeSum(bits, pos, k) == LeValue(NextBytes(bits, pos, k))
  {
    if k > 0 {
      LeSumIs(bits, pos, k - 1);
      var s, b := NextBytes(bits, pos, k - 1), NextByte(bits, pos + 8 * (k - 1));
      var x, m := LeSum(bits, pos, k - 1), 8 * (k - 1);
      LeSumStep(s, b, x, m);
      LeSumLast(bits, pos, k, m, s, b, x);
    }
  }

  lemma LeSumLast(bits: seq<bool>, pos: nat, k: nat, m: nat, s: seq<bool>, b: Byte, x: nat)
    requires 0 < k && m == 8 * (k - 1) && b == NextByte(bits, pos + 8 * (k - 1))
    requires s == NextBytes(bits, pos, k - 1) && x == LeSum(bits, pos, k - 1)
    ensures LeSum(bits, pos, k) == Or(x, ShiftedByte(b, m)) && NextBytes(bits, pos, k) == s + b
  {}

  lemma LeSumStep(s: seq<bool>, b: Byte, value: nat, m: nat)
    requires value == LeValue(s) && m == |s|
    ensures Or(value, ShiftedByte(b, m)) == LeValue(s + b)
  {
    OrHighByte(FromBits(b), m, value, Pow2(m));
    ShiftedByteIs(b, m);
    LeLast(s, b);
  }

  lemma TimesOne(x: int)
    ensures x * Pow2(0) == x
  {}

  // ---- items --------------------------------------------------------------------------------------

  /** One write call: a bit, a 2-, 4-, n- or 8-bit number, a number of n bytes in either order,
      or a string. */
  datatype Item =
    | Bit(b: bool)
    | Uint2(v: nat)
    | Uint4(v: nat)
    | NBits(v: nat, n: nat)
    | Uint8(v: nat)
    | UintBe(v: nat, n: nat)
    | UintLe(v: nat, n: nat)
    | Text(s: seq<Byte>)

  /** The read call that corresponds to it. */
  datatype Kind = KBit | KUint2 | KUint4 | KNBits(n: nat) | KUint8 | KUintBe(n: nat) | KUintLe(n: nat) | KText

  function KindOf(item: Item): Kind {
    match item
    case Bit(_) => KBit
    case Uint2(_) => KUint2
    case Uint4(_) => KUint4
    case NBits(_, n) => KNBits(n)
    case Uint8(_) => KUint8
    case UintBe(_, n) => KUintBe(n)
    case UintLe(_, n) => KUintLe(n)
    case Text(_) => KText
  }

  /** The bits of an item. */
  function Encode(item: Item): (s: seq<bool>) {
    match item
    case Bit(b) => [b]
    case Uint2(v) => ToBits(v, 2)
    case Uint4(v) => ToBits(v, 4)
    case NBits(v, n) => ToBits(v, n)
    case Uint8(v) => ToBits(v, 8)
    case UintBe(v, n) => ToBits(v, 8 * n)
    case UintLe(v, n) => LeBits(v, n)
    case Text(s) => AllBits(s) + Repeat(false, 8)
  }

  /** What fits into the field is what comes back. */
  function Reduced(item: Item): (r: Item) {
    match item
    case Bit(b) => item
    case Uint2(v) => Uint2(v % Pow2(2))
    case Uint4(v) => Uint4(v % Pow2(4))
    case NBits(v, n) => NBits(v % Pow2(n), n)
    case Uint8(v) => Uint8(v % Pow2(8))
    case UintBe(v, n) => UintBe(v % Pow2(8 * n), n)
    case UintLe(v, n) => UintLe(v % Pow2(8 * n), n)
    case Text(s) => item
  }

  function Width(kind: Kind): nat {
    match kind
    case KBit => 1
    case KUint2 => 2
    case KUint4 => 4
    case KNBits(n) => n
    case KUint8 => 8
    case KUintBe(n) => 8 * n
    case KUintLe(n) => 8 * n
    case KText => 0
  }

  /** What a read call returns and where it stops. */
  function Decode(kind: Kind, bits: seq<bool>, pos: nat): (r: (Item, nat)) {
    var next := After(bits, pos, Width(kind));
    match kind
    case KBit => (Bit(pos < |bits| && bits[pos]), next)
    case KUint2 => (Uint2(FromBits(NextBits(bits, pos, 2))), next)
    case KUint4 => (Uint4(FromBits(NextBits(bits, pos, 4))), next)
    case KNBits(n) => (NBits(BitSum(bits, pos, n, n), n), next)
    case KUint8 => (Uint8(FromBits(NextByte(bits, pos))), next)
    case KUintBe(n) => (UintBe(BeSum(bits, pos, n, n), n), next)
    case KUintLe(n) => (UintLe(LeSum(bits, pos, n), n), next)
    case KText => (Text(NextString(bits, pos)), After(bits, pos, 8 * |NextString(bits, pos)| + 8))
  }

  /** Whether a read call passes the end of the stream. */
  predicate Beyond(kind: Kind, bits: seq<bool>, pos: nat) {
    if kind == KText then pos + 8 * |NextString(bits, pos)| + 8 > |bits| else pos + Width(kind) > |bits|
  }

  // ---- reading what was written ---------------------------------------------------------------------

  lemma {:induction false} NextBitsStand(bits: seq<bool>, pos: nat, e: seq<bool>)
    requires Stands(bits, pos, e)
    ensures NextBits(bits, pos, |e|) == e
  {
    if e != [] {
      var k := |e| - 1;
      assert e == e[..k] + [e[k]];
      StandsParts(bits, pos, e[..k], [e[k]]);
      NextBitsStand(bits, pos, e[..k]);
    }
  }

  lemma {:induction false} NextBytesStand(bits: seq<bool>, pos: nat, e: seq<bool>, n: nat)
    requires Stands(bits, pos, e) && |e| == 8 * n
    ensures NextBytes(bits, pos, n) == e
  {
    if n > 0 {
      var k := 8 * (n - 1);
      assert e == e[..k] + e[k..];
      StandsParts(bits, pos, e[..k], e[k..]);
      NextBytesStand(bits, pos, e[..k], n - 1);
    }
  }

  lemma {:induction false} NextStringStands(bits: seq<bool>, pos: nat, s: seq<Byte>)
    requires Stands(bits, pos, AllBits(s) + Repeat(false, 8)) && Repeat(false, 8) !in s
    ensures NextString(bits, pos) == s
    decreases |s|
  {
    var zero := Repeat(false, 8);
    if s == [] {
      assert AllBits(s) + zero == zero;
    } else {
      var rest := AllBits(s[1..]) + zero;
      assert s == [s[0]] + s[1..];
      AllBitsConcat([s[0]], s[1..]);
      AllBitsPush([], s[0]);
      assert [] + [s[0]] == [s[0]];
      Regroup(s[0], AllBits(s[1..]), zero);
      StandsParts(bits, pos, s[0], rest);
      NextStringStands(bits, pos + 8, s[1..]);
    }
  }

  /** Reading an item where it stands gives it back and stops right behind it. */
  lemma DecodeEncode(item: Item, bits: seq<bool>, pos: nat)
    requires Stands(bits, pos, Encode(item)) && (item.Text? ==> Repeat(false, 8) !in item.s)
    ensures Decode(KindOf(item), bits, pos) == (Reduced(item), pos + |Encode(item)|)
    ensures !Beyond(KindOf(item), bits, pos)
  {
    if item.Bit? || item.Text? {
      DecodeOther(item, bits, pos);
    } else if item.Uint8? || item.UintBe? || item.UintLe? {
      DecodeBytes(item, bits, pos);
    } else {
      DecodeNumber(item, bits, pos);
    }
  }

  lemma DecodeOther(item: Item, bits: seq<bool>, pos: nat)
    requires Stands(bits, pos, Encode(item)) && (item.Bit? || (item.Text? && Repeat(false, 8) !in item.s))
    ensures Decode(KindOf(item), bits, pos) == (Reduced(item), pos + |Encode(item)|)
    ensures !Beyond(KindOf(item), bits, pos)
  {
    match item
    case Bit(b) => assert bits[pos..pos + 1] == [b];
    case Text(s) => NextStringStands(bits, pos, s);
  }

  lemma DecodeNumber(item: Item, bits: seq<bool>, pos: nat)
    requires Stands(bits, pos, Encode(item)) && (item.Uint2? || item.Uint4? || item.NBits?)
    ensures Decode(KindOf(item), bits, pos) == (Reduced(item), pos + |Encode(item)|)
    ensures !Beyond(KindOf(item), bits, pos)
  {
    match item
    case Uint2(v) => FieldStands(bits, pos, v, 2);
    case Uint4(v) => FieldStands(bits, pos, v, 4);
    case NBits(v, n) => FieldStands(bits, pos, v, n);
  }

  lemma FieldStands(bits: seq<bool>, pos: nat, v: nat, n: nat)
    requires Stands(bits, pos, ToBits(v, n))
    ensures FromBits(NextBits(bits, pos, n)) == BitSum(bits, pos, n, n) == v % Pow2(n)
    ensures After(bits, pos, n) == pos + n && pos + n <= |bits| && |ToBits(v, n)| == n
  {
    NumberStands(bits, pos, v, n);
  }

  lemma DecodeBytes(item: Item, bits: seq<bool>, pos: nat)
    requires Stands(bits, pos, Encode(item)) && (item.Uint8? || item.UintBe? || item.UintLe?)
    ensures Decode(KindOf(item), bits, pos) == (Reduced(item), pos + |Encode(item)|)
    ensures !Beyond(KindOf(item), bits, pos)
  {
    match item
    case Uint8(v) => ByteStands(bits, pos, v);
    case UintBe(v, n) => BeStands(bits, pos, v, n);
    case UintLe(v, n) => LeStands(bits, pos, v, n);
  }

  lemma ByteStands(bits: seq<bool>, pos: nat, v: nat)
    requires Stands(bits, pos, ToBits(v, 8))
    ensures FromBits(NextByte(bits, pos)) == v % Pow2(8)
  {
    BackFromBits(v, 8);
    assert NextByte(bits, pos) == ToBits(v, 8);
  }

  lemma BeStands(bits: seq<bool>, pos: nat, v: nat, n: nat)
    requires Stands(bits, pos, ToBits(v, 8 * n))
    ensures BeSum(bits, pos, n, n) == v % Pow2(8 * n)
  {
    BeSumIs(bits, pos, n, n, 0);
    TimesOne(FromBits(NextBytes(bits, pos, n)));
    NextBytesStand(bits, pos, ToBits(v, 8 * n), n);
    BackFromBits(v, 8 * n);
  }

  lemma LeStands(bits: seq<bool>, pos: nat, v: nat, n: nat)
    requires Stands(bits, pos, LeBits(v, n))
    ensures LeSum(bits, pos, n) == v % Pow2(8 * n)
  {
    LeSumIs(bits, pos, n);
    NextBytesStand(bits, pos, LeBits(v, n), n);
    LeRoundTrip(v, n);
  }

  lemma NumberStands(bits: seq<bool>, pos: nat, v: nat, n: nat)
    requires Stands(bits, pos, ToBits(v, n))
    ensures FromBits(NextBits(bits, pos, n)) == BitSum(bits, pos, n, n) == v % Pow2(n)
  {
    BitSumIs(bits, pos, n, n);
    TimesOne(FromBits(NextBits(bits, pos, n)));
    NextBitsStand(bits, pos, ToBits(v, n));
    BackFromBits(v, n);
  }

  // ---- sequences of items -----------------------------------------------------------------------------

  function EncodeAll(items: seq<Item>): (s: seq<bool>) {
    if items == [] then [] else EncodeAll(items[..|items| - 1]) + Encode(items[|items| - 1])
  }

  function ReducedAll(items: seq<Item>): (r: seq<Item>)
    ensures |r| == |items|
  {
    if items == [] then [] else ReducedAll(items[..|items| - 1]) + [Reduced(items[|items| - 1])]
  }

  lemma ReducedNext(items: seq<Item>, i: nat)
    requires i < |items|
    ensures ReducedAll(items[..i + 1]) == ReducedAll(items[..i]) + [Reduced(items[i])]
  {
    assert items[..i + 1][..i] == items[..i];
  }

  /** The number fits into its field. */
  predicate Fits(item: Item) {
    match item
    case Bit(_) => true
    case Text(_) => true
    case _ => item.v < Pow2(Width(KindOf(item)))
  }

  predicate AllFit(items: seq<Item>) {
    forall i :: 0 <= i < |items| ==> Fits(items[i])
  }

  lemma ReducedIsSame(item: Item)
    requires Fits(item)
    ensures Reduced(item) == item
  {
    if !item.Bit? && !item.Text? { DivUnique(item.v, Pow2(Width(KindOf(item))), 0, item.v); }
  }

  lemma {:induction false} ReducedSame(items: seq<Item>)
    requires AllFit(items)
    ensures ReducedAll(items) == items
  {
    if items != [] {
      ReducedSame(items[..|items| - 1]);
      ReducedIsSame(items[|items| - 1]);
    }
  }

  /** Where the source's own functions can write an item. */
  ghost predicate WritableAt(item: Item, offset: nat) {
    match item
    case Bit(_) => true
    case Uint2(_) => true
    case Uint4(_) => true
    case NBits(_, n) => 1 <= n <= 31
    case Uint8(_) => offset % 8 == 0 || offset % 8 == 4
    case UintBe(_, _) => offset % 8 == 0 || offset % 8 == 4
    case UintLe(_, _) => offset % 8 == 0 || offset % 8 == 4
    case Text(s) => offset % 8 == 0 && Repeat(false, 8) !in s
  }

  ghost predicate Writable(items: seq<Item>) {
    forall i :: 0 <= i < |items| ==> WritableAt(items[i], |EncodeAll(items[..i])|)
  }

  /** The item at index i stands behind the items before it. */
  lemma {:induction false} ItemStands(items: seq<Item>, i: nat, pos: nat, e: seq<bool>)
    requires i < |items| && pos == |EncodeAll(items[..i])| && e == Encode(items[i])
    ensures Stands(EncodeAll(items), pos, e)
    decreases |items|
  {
    var k := |items| - 1;
    if i < k {
      assert items[..k][..i] == items[..i];
      ItemStands(items[..k], i, pos, e);
      StandsLonger(EncodeAll(items), EncodeAll(items[..k]), Encode(items[k]), pos, e);
    } else {
      StandsLast(EncodeAll(items), EncodeAll(items[..k]), e);
    }
  }

  lemma EncodeNext(items: seq<Item>, i: nat)
    requires i < |items|
    ensures EncodeAll(items[..i + 1]) == EncodeAll(items[..i]) + Encode(items[i])
  {
    assert items[..i + 1][..i] == items[..i];
  }

  lemma StandsLast(all: seq<bool>, a: seq<bool>, b: seq<bool>)
    requires all == a + b
    ensures Stands(all, |a|, b)
  {}

  lemma StandsLonger(all: seq<bool>, a: seq<bool>, b: seq<bool>, pos: nat, e: seq<bool>)
    requires all == a + b && Stands(a, pos, e)
    ensures Stands(all, pos, e)
  {}
}
