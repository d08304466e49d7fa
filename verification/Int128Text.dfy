/**
 The numerals Int128 prints and parses, and the proof that decimal printing followed by
 parsing gives back every value but the least one.
 */
module Int128Text {
  import opened Options
  import opened Binary
  import opened Int128Words

  /** Line 55. */
  function DigitChar(c: nat): char
    requires c < 37
  {
    if c > 9 then ('A' as int - 10 + c) as char else ('0' as int + c) as char
  }

  /** The numeral of n without leading zeros; empty for zero. */
  function Digits(n: nat, radix: nat): string
    requires 2 <= radix <= 37
  {
    if n == 0 then "" else Digits(n / radix, radix) + [DigitChar(n % radix)]
  }

  /** What toString returns. */
  function Print(v: int, radix: nat): string {
    if v == 0 then "0"
    else if radix < 2 || radix > 37 then "(invalid radix)"
    else if v == -B127 then "-0"
    else (if v < 0 then "-" else "") + Digits(if v < 0 then -v else v, radix)
  }

  /** Lines 92-99: the value of a character as a digit. */
  function DigitOf(ch: char, radix: nat): Option<nat> {
    var c := ch as int;
    if '0' as int <= c <= '9' as int && c < '0' as int + radix then Some(c - '0' as int)
    else if radix >= 10 && 'a' as int <= c <= 'a' as int + radix - 10 then Some(c - 'a' as int + 10)
    else if radix >= 10 && 'A' as int <= c <= 'A' as int + radix - 10 then Some(c - 'A' as int + 10)
    else None
  }

  /** Reading digits until the first other character. */
  function ParseDigits(s: string, radix: nat, acc: int): int {
    if s == "" then acc
    else match DigitOf(s[0], radix)
         case None => acc
         case Some(n) => ParseDigits(s[1..], radix, acc * radix + n)
  }

  /** Lines 76-88: sign and radix prefix. */
  function Prefix(sz: string): (r: (bool, nat, nat))
    ensures r.2 <= |sz|
  {
    var minus := sz != "" && sz[0] == '-';
    var i := if minus then 1 else 0;
    if i < |sz| && sz[i] == '0' then
      if i + 1 < |sz| && sz[i + 1] == 'x' then (minus, 16, i + 2) else (minus, 8, i + 1)
    else (minus, 10, i)
  }

  /** What set stores. */
  function ParseValue(sz: string): int {
    var (minus, radix, i) := Prefix(sz);
    var t := ParseDigits(sz[i..], radix, 0);
    Wrap(if minus then 0 - t else t)
  }

  lemma {:induction false} DigitsShape(n: nat, radix: nat)
    requires 2 <= radix <= 37
    ensures n > 0 ==> Digits(n, radix) != "" && exists d :: 0 < d < radix && Digits(n, radix)[0] == DigitChar(d)
  {
    if n > 0 {
      DivMod(n, radix);
      DivShrinks(n, radix);
      if n / radix == 0 {
        assert Digits(n, radix) == [DigitChar(n % radix)];
      } else {
        SmallerQuotient(n, radix);
        DigitsShape(n / radix, radix);
        var d :| 0 < d < radix && Digits(n / radix, radix)[0] == DigitChar(d);
        assert Digits(n, radix)[0] == DigitChar(d);
      }
    }
  }

  lemma SmallerQuotient(n: nat, radix: nat)
    requires n > 0 && radix >= 2
    ensures n / radix < n
  {
    DivMod(n, radix);
    QuotientCore(n, n / radix, n % radix, radix);
  }

  lemma QuotientCore(n: nat, q: int, r: int, radix: nat)
    requires n > 0 && radix >= 2 && n == q * radix + r && 0 <= r < radix
    ensures q < n
  {
    if q >= 0 {
      MulNonNeg(q, radix - 2);
      assert q * radix == q * (radix - 2) + 2 * q;
    }
  }

  /** No numeral of a 127-bit number overflows the buffer. */
  lemma {:induction false} DigitsFit(n: nat, radix: nat, k: nat)
    requires 2 <= radix <= 37 && n < Pow2(k)
    ensures |Digits(n, radix)| <= k
    decreases k
  {
    if n > 0 {
      assert k > 0;
      HalfOfPower(n, radix, k);
      DigitsFit(n / radix, radix, k - 1);
    }
  }

  lemma HalfOfPower(n: nat, radix: nat, k: nat)
    requires radix >= 2 && k > 0 && n < Pow2(k)
    ensures 0 <= n / radix < Pow2(k - 1)
  {
    DivShrinks(n, radix);
    MulNonNeg(radix - 2, Pow2(k - 1));
    assert radix * Pow2(k - 1) == (radix - 2) * Pow2(k - 1) + 2 * Pow2(k - 1);
    DivBelow(n, radix, Pow2(k - 1));
  }

  lemma {:induction false} ParseAppend(a: string, b: string, radix: nat, acc: int)
    requires forall i :: 0 <= i < |a| ==> DigitOf(a[i], radix).Some?
    ensures ParseDigits(a + b, radix, acc) == ParseDigits(b, radix, ParseDigits(a, radix, acc))
  {
    if a == "" {
      assert a + b == b;
    } else {
      assert (a + b)[1..] == a[1..] + b;
      ParseAppend(a[1..], b, radix, acc * radix + DigitOf(a[0], radix).value);
    }
  }

  /** The digits of toString; radix 37 has a bracket behind the letters. */
  lemma DigitChars(c: nat)
    requires c < 37
    ensures DigitChar(c) == "0123456789ABCDEFGHIJKLMNOPQRSTUVWXYZ["[c]
  {}

  /** What a character stands for in the usual numerals. */
  function UsualDigit(ch: char): Option<nat> {
    if '0' <= ch <= '9' then Some(ch as int - '0' as int)
    else if 'a' <= ch <= 'z' then Some(10 + (ch as int - 'a' as int))
    else if 'A' <= ch <= 'Z' then Some(10 + (ch as int - 'A' as int))
    else None
  }

  /** The letter one behind the last digit of a radix, which set takes for a digit too. */
  predicate OneTooMany(ch: char, radix: nat) {
    radix >= 10 && (ch as int == 'a' as int + radix - 10 || ch as int == 'A' as int + radix - 10)
  }

  /** A character is read as the digit it is, and any other as none, exactly unless it is the
      letter one behind the last digit of the radix. */
  lemma DigitReadWhen(ch: char, radix: nat)
    requires 2 <= radix <= 36
    ensures var d := UsualDigit(ch);
            DigitOf(ch, radix) == (if d.Some? && d.value < radix then d else None) <==> !OneTooMany(ch, radix)
  {}

  /** So 1a is twenty in decimal. */
  lemma LetterInDecimal()
    ensures ParseValue("1a") == 20
  {
    assert Prefix("1a") == (false, 10, 0) && "1a"[0..] == "1a" && "1a"[1..] == "a" && "a"[1..] == "";
    assert ParseDigits("a", 10, 1) == ParseDigits("", 10, 20);
    assert ParseDigits("1a", 10, 0) == ParseDigits("a", 10, 1);
  }

  lemma DigitRead(d: nat, radix: nat)
    requires d < radix <= 37
    ensures DigitOf(DigitChar(d), radix) == Some(d) && DigitChar(d) != '-' && DigitChar(d) != 'x'
    ensures d > 0 ==> DigitChar(d) != '0'
  {}

  /** In every radix the digits denote the number they were made from. */
  lemma {:induction false} DigitsRead(n: nat, radix: nat)
    requires 2 <= radix <= 37
    ensures forall i :: 0 <= i < |Digits(n, radix)| ==> DigitOf(Digits(n, radix)[i], radix).Some?
    ensures ParseDigits(Digits(n, radix), radix, 0) == n
  {
    if n > 0 {
      SmallerQuotient(n, radix);
      DivShrinks(n, radix);
      DivMod(n, radix);
      DigitsRead(n / radix, radix);
      DigitRead(n % radix, radix);
      DigitsPush(Digits(n / radix, radix), DigitChar(n % radix), radix, n / radix, n % radix);
    }
  }

  lemma DigitsPush(a: string, c: char, radix: nat, q: int, d: nat)
    requires forall i :: 0 <= i < |a| ==> DigitOf(a[i], radix).Some?
    requires ParseDigits(a, radix, 0) == q && DigitOf(c, radix) == Some(d)
    ensures forall i :: 0 <= i < |a + [c]| ==> DigitOf((a + [c])[i], radix).Some?
    ensures ParseDigits(a + [c], radix, 0) == q * radix + d
  {
    ParseAppend(a, [c], radix, 0);
    assert [c][1..] == "";
    assert ParseDigits([c], radix, q) == ParseDigits("", radix, q * radix + d);
  }

  /** Numerals behind 0x are hexadecimal, behind 0 octal, and others decimal. */
  lemma PrefixedValue(n: int, minus: bool)
    requires n >= 0
    ensures var sign, v := if minus then "-" else "", Wrap(if minus then -n else n);
            && ParseValue(sign + "0x" + Digits(n, 16)) == v
            && ParseValue(sign + "0" + Digits(n, 8)) == v
            && ParseValue(sign + Digits(n, 10)) == v
  {
    var sign := if minus then "-" else "";
    MarkedValue(n, minus, sign, "0x", 16);
    MarkedValue(n, minus, sign, "0", 8);
    MarkedValue(n, minus, sign, "", 10);
    assert sign + "" == sign;
  }

  lemma MarkedValue(n: int, minus: bool, sign: string, mark: string, radix: nat)
    requires n >= 0 && sign == if minus then "-" else ""
    requires (mark == "0x" && radix == 16) || (mark == "0" && radix == 8) || (mark == "" && radix == 10)
    ensures ParseValue(sign + mark + Digits(n, radix)) == Wrap(if minus then -n else n)
  {
    DigitsRead(n, radix);
    if n > 0 {
      DigitsShape(n, radix);
      var d :| 0 < d < radix && Digits(n, radix)[0] == DigitChar(d);
      DigitRead(d, radix);
    }
    PrefixIs(minus, sign, mark, Digits(n, radix), radix);
  }

  lemma PrefixIs(minus: bool, sign: string, mark: string, digits: string, radix: nat)
    requires sign == if minus then "-" else ""
    requires match mark
             case "0x" => radix == 16
             case "0" => radix == 8 && (digits != "" ==> digits[0] != 'x')
             case _ => mark == "" && radix == 10 && (digits != "" ==> digits[0] != '-' && digits[0] != '0')
    ensures Prefix(sign + mark + digits) == (minus, radix, |sign| + |mark|)
    ensures (sign + mark + digits)[|sign| + |mark|..] == digits
  {
    var sz := sign + mark + digits;
    assert sz[|sign| + |mark|..] == digits;
    assert mark != "" ==> sz[|sign|] == mark[0];
    assert |mark| == 2 ==> sz[|sign| + 1] == mark[1];
    assert digits != "" ==> sz[|sign| + |mark|] == digits[0];
  }

  /** set(toString(v)) is v for every 128-bit value except the least. */
  lemma PrintThenParse(v: int)
    requires -B127 <= v < B127
    ensures ParseValue(Print(v, 10)) == v <==> v != -B127
  {
    if v == 0 {
      assert Prefix("0") == (false, 8, 1);
      assert "0"[1..] == "";
    } else if v == -B127 {
      assert Prefix("-0") == (true, 8, 2);
      assert "-0"[2..] == "";
    } else {
      PrefixedValue(if v < 0 then -v else v, v < 0);
      WrapSmall(v);
    }
  }
}
