/**
 inet::PatternMatcher::setPattern and its parsers: from the text of a pattern to its token
 list. A cursor runs over the text; a token is read at each stop.
 */
module PatternSyntax {
  import opened PatternMeaning

  datatype Error = UnmatchedBrace | DanglingEscape

  datatype Parsed = Token(elem: Elem, next: nat) | Failed(error: Error)

  datatype Tokens = Tokens(elems: seq<Elem>) | Bad(error: Error)

  datatype Range = Range(lo: int, up: int, end: nat) | NoRange

  predicate Is(text: string, i: nat, c: char) {
    i < |text| && text[i] == c
  }

  predicate DigitAt(text: string, i: nat) {
    i < |text| && IsDigit(text[i])
  }

  /** The end of the digit run at i. */
  function DigitsEnd(text: string, i: nat): (j: nat)
    requires i <= |text|
    ensures i <= j <= |text| && !DigitAt(text, j)
    decreases |text| - i
  {
    if DigitAt(text, i) then DigitsEnd(text, i + 1) else i
  }

  lemma {:induction false} DigitsInside(text: string, i: nat)
    requires i <= |text|
    ensures forall k :: i <= k < DigitsEnd(text, i) ==> IsDigit(text[k])
    decreases |text| - i
  {
    if DigitAt(text, i) { DigitsInside(text, i + 1); }
  }

  function NumberAt(text: string, i: nat): (num: int)
    requires i <= |text|
    ensures num >= -1
  {
    DigitsInside(text, i);
    if DigitAt(text, i) then Value(text[i..DigitsEnd(text, i)]) else -1
  }

  /** "[n..m]" or "{n..m}" at i, both numbers optional. */
  function NumRangeAt(text: string, i: nat, closing: char): (r: Range)
    requires i < |text|
    ensures r.Range? ==> i + 2 < r.end < |text| && text[r.end] == closing && r.lo >= -1 && r.up >= -1
    ensures r.Range? ==> exists k :: i < k < r.end - 1 && text[k] == '.' && text[k + 1] == '.'
  {
    var dots := DigitsEnd(text, i + 1);
    if !(Is(text, dots, '.') && Is(text, dots + 1, '.')) then NoRange
    else
      var end := DigitsEnd(text, dots + 2);
      if !Is(text, end, closing) then NoRange
      else
        assert text[dots] == '.' && text[dots + 1] == '.';
        Range(NumberAt(text, i + 1), NumberAt(text, dots + 2), end)
  }

  predicate Special(c: char) {
    c == '?' || c == '{' || c == '*'
  }

  /** Characters of a literal from i on; an opening bracket of a numeric range ends it. */
  function LiteralAt(text: string, i: nat, acc: string): (r: Parsed)
    requires i <= |text|
    ensures r.Token? ==> r.elem.LiteralString? && i <= r.next <= |text|
    ensures r.Token? && acc == [] && i < |text| && !Special(text[i]) ==>
              r.next > i || (text[i] == '[' && NumRangeAt(text, i, ']').Range?)
    decreases |text| - i
  {
    if i == |text| || Special(text[i]) then Token(LiteralString(acc), i)
    else if text[i] == '\\' && i + 1 == |text| then Failed(DanglingEscape)
    else
      var j := if text[i] == '\\' then i + 1 else i;
      if text[j] == '[' && NumRangeAt(text, j, ']').Range? then Token(LiteralString(acc + [text[j]]), j)
      else LiteralAt(text, j + 1, acc + [text[j]])
  }

  /** The next range of a set: "A-Z" or a single character. */
  function SetRangeAt(text: string, i: nat): (r: (string, nat))
    requires i < |text|
    ensures |r.0| == 2 && i < r.1 <= |text|
  {
    if Is(text, i + 1, '-') && i + 2 < |text| && text[i + 2] != '}' then ([text[i], text[i + 2]], i + 3)
    else ([text[i], text[i]], i + 1)
  }

  /** A closing brace is a member of the set if it comes first. */
  function SetCharsAt(text: string, begin: nat, i: nat, acc: string): (r: (string, nat))
    requires begin <= i <= |text|
    ensures i <= r.1 <= |text| && |r.0| % 2 == |acc| % 2
    ensures r.1 < |text| ==> text[r.1] == '}'
    decreases |text| - i
  {
    if i == |text| || (text[i] == '}' && i != begin) then (acc, i)
    else SetCharsAt(text, begin, SetRangeAt(text, i).1, acc + SetRangeAt(text, i).0)
  }

  function SetAt(text: string, i: nat): (r: Parsed)
    requires i < |text|
    ensures r.Token? ==> i < r.next <= |text| && ElemOk(r.elem)
  {
    var negated := Is(text, i + 1, '^');
    var begin := if negated then i + 2 else i + 1;
    var (chars, end) := SetCharsAt(text, begin, begin, []);
    if end == |text| then Failed(UnmatchedBrace)
    else Token(if negated then NegSet(chars) else Set(chars), end + 1)
  }

  predicate ElemOk(e: Elem) {
    match e
    case Set(chars) => |chars| % 2 == 0
    case NegSet(chars) => |chars| % 2 == 0
    case NumRange(lo, up) => lo >= -1 && up >= -1
    case End => false
    case _ => true
  }

  ghost predicate AllOk(elems: seq<Elem>) {
    forall k :: 0 <= k < |elems| ==> ElemOk(elems[k])
  }

  /** The token at i, given whether the previous one was a literal. */
  function TokenAt(text: string, i: nat, dotted: bool, afterLiteral: bool): (r: Parsed)
    requires i < |text|
    ensures r.Token? ==> i <= r.next <= |text| && ElemOk(r.elem)
    ensures r.Token? && r.next == i ==> r.elem.LiteralString? && !afterLiteral
  {
    match text[i]
    case '?' => Token(if dotted then CommonChar else AnyChar, i + 1)
    case '[' =>
      var range := NumRangeAt(text, i, ']');
      if !afterLiteral || range.NoRange? then LiteralAt(text, i, [])
      else Token(NumRange(range.lo, range.up), range.end)
    case '{' =>
      var range := NumRangeAt(text, i, '}');
      if range.Range? then Token(NumRange(range.lo, range.up), range.end + 1)
      else SetAt(text, i)
    case '*' =>
      if Is(text, i + 1, '*') then Token(AnySeq, i + 2)
      else Token(if dotted then CommonSeq else AnySeq, i + 1)
    case _ => LiteralAt(text, i, [])
  }

  predicate EndsLiteral(elems: seq<Elem>) {
    elems != [] && elems[|elems| - 1].LiteralString?
  }

  /** The cursor does not move when a literal stops at its own opening bracket, which the
      next token then consumes. */
  function Left(text: string, i: nat, elems: seq<Elem>): (n: nat)
    requires i <= |text|
  {
    2 * (|text| - i) + if EndsLiteral(elems) then 0 else 1
  }

  /** All tokens from i on, after those already read. */
  function TokensFrom(text: string, i: nat, dotted: bool, elems: seq<Elem>): (r: Tokens)
    requires i <= |text| && AllOk(elems)
    ensures r.Tokens? ==> AllOk(r.elems)
    decreases Left(text, i, elems)
  {
    if i == |text| then Tokens(elems)
    else
      var t := TokenAt(text, i, dotted, EndsLiteral(elems));
      if t.Failed? then Bad(t.error) else TokensFrom(text, t.next, dotted, elems + [t.elem])
  }

  function Compile(text: string, dotted: bool, fullstring: bool): (r: Tokens)
    ensures r.Tokens? ==> AllOk(r.elems)
  {
    var t := TokensFrom(text, 0, dotted, []);
    if t.Bad? || fullstring then t else Tokens(WithStars(t.elems))
  }

  lemma NextToken(text: string, i: nat, dotted: bool, elems: seq<Elem>)
    requires i < |text| && AllOk(elems)
    requires TokenAt(text, i, dotted, EndsLiteral(elems)).Token?
    ensures var t := TokenAt(text, i, dotted, EndsLiteral(elems));
            && TokensFrom(text, i, dotted, elems) == TokensFrom(text, t.next, dotted, elems + [t.elem])
            && (t.next == |text| ==> TokensFrom(text, i, dotted, elems) == Tokens(elems + [t.elem]))
  {}

  lemma TokenStep(text: string, i: nat, dotted: bool, elems: seq<Elem>, e: Elem, next: nat)
    requires i < |text| && AllOk(elems)
    requires TokenAt(text, i, dotted, EndsLiteral(elems)) == Token(e, next)
    ensures next <= |text| && ElemOk(e)
    ensures TokensFrom(text, i, dotted, elems) == TokensFrom(text, next, dotted, elems + [e])
  {
    NextToken(text, i, dotted, elems);
  }

  lemma NoMoreTokens(text: string, dotted: bool, elems: seq<Elem>)
    requires AllOk(elems)
    ensures TokensFrom(text, |text|, dotted, elems) == Tokens(elems)
  {}

  /** One character of a literal, alone or behind a backslash. */
  lemma LiteralNext(text: string, i: nat, acc: string, next: nat)
    requires i < next <= |text| && !Special(text[i])
    requires next == if text[i] == '\\' then i + 2 else i + 1
    ensures var c := text[next - 1];
            LiteralAt(text, i, acc) ==
              if c == '[' && NumRangeAt(text, next - 1, ']').Range? then Token(LiteralString(acc + [c]), next - 1)
              else LiteralAt(text, next, acc + [c])
  {}

  // ---- texts without wildcards --------------------------------------------------------------------

  predicate ContainsWildcards(text: string) {
    || (exists i :: 0 <= i < |text| && (text[i] == '?' || text[i] == '*' || text[i] == '\\' || text[i] == '{'))
    || (exists i :: 0 <= i < |text| - 1 && text[i] == '.' && text[i + 1] == '.')
  }

  lemma {:induction false} PlainLiteral(text: string, i: nat)
    requires !ContainsWildcards(text) && i <= |text|
    ensures LiteralAt(text, i, text[..i]) == Token(LiteralString(text), |text|)
    decreases |text| - i
  {
    if i == |text| {
      assert text[..i] == text;
    } else {
      PlainLiteral(text, i + 1);
      assert text[..i] + [text[i]] == text[..i + 1];
    }
  }

  /** A pattern without wildcards can be compared as a plain string. */
  lemma PlainMatchesItself(text: string, dotted: bool, line: string)
    requires !ContainsWildcards(text)
    ensures Compile(text, dotted, true).Tokens?
    ensures Matches(Compile(text, dotted, true).elems, line) <==> line == text
  {
    if text == [] {
      DescribesNone(line, 0, |line|);
    } else {
      PlainLiteral(text, 0);
      assert TokenAt(text, 0, dotted, false) == Token(LiteralString(text), |text|);
      NextToken(text, 0, dotted, []);
      assert Compile(text, dotted, true).elems == [LiteralString(text)];
      SingleLiteral(text, line);
    }
  }

  lemma SingleLiteral(text: string, line: string)
    ensures Matches([LiteralString(text)], line) <==> line == text
  {
    DescribesOne(LiteralString(text), line, 0, |line|);
    assert line[0..|line|] == line;
  }

  // ---- backslashes ----------------------------------------------------------------------------------

  /** Every character behind a backslash. */
  function Quote(text: string): (q: string)
    ensures |q| == 2 * |text|
  {
    if text == [] then [] else Quote(text[..|text| - 1]) + ['\\', text[|text| - 1]]
  }

  /** Character k of the text stands behind a backslash at 2k. */
  ghost predicate IsQuote(text: string, q: string) {
    |q| == 2 * |text| && forall k {:trigger text[k]} :: 0 <= k < |text| ==> q[2 * k] == '\\' && q[2 * k + 1] == text[k]
  }

  lemma {:induction false} QuoteIs(text: string)
    ensures IsQuote(text, Quote(text))
  {
    if text != [] {
      var n := |text| - 1;
      var front := text[..n];
      QuoteIs(front);
      forall k | 0 <= k < |text| ensures Quote(text)[2 * k] == '\\' && Quote(text)[2 * k + 1] == text[k] {
        if k < n { assert front[k] == text[k]; }
      }
    }
  }

  lemma {:induction false} QuotedLiteral(text: string, q: string, k: nat)
    requires k <= |text| && IsQuote(text, q)
    ensures LiteralAt(q, 2 * k, text[..k]) == Token(LiteralString(text), 2 * |text|)
    decreases |text| - k
  {
    if k == |text| {
      assert text[..k] == text;
    } else {
      var c := text[k];
      if k + 1 < |text| { var next := text[k + 1]; }
      NoRangeAt(q, 2 * k + 1, ']');
      LiteralNext(q, 2 * k, text[..k], 2 * k + 2);
      assert text[..k] + [c] == text[..k + 1];
      QuotedLiteral(text, q, k + 1);
    }
  }

  lemma NoRangeAt(text: string, i: nat, closing: char)
    requires i < |text| && (i + 1 < |text| ==> !IsDigit(text[i + 1]) && text[i + 1] != '.')
    ensures NumRangeAt(text, i, closing).NoRange?
  {
    assert DigitsEnd(text, i + 1) == i + 1;
  }

  /** A backslash takes away the special meaning of the next character. */
  lemma QuotedMatchesItself(text: string, dotted: bool, line: string)
    ensures Compile(Quote(text), dotted, true).Tokens?
    ensures Matches(Compile(Quote(text), dotted, true).elems, line) <==> line == text
  {
    if text == [] {
      DescribesNone(line, 0, |line|);
    } else {
      var q := Quote(text);
      QuoteIs(text);
      QuotedLiteral(text, q, 0);
      assert text[..0] == [] && text[0] == text[0];
      assert TokenAt(q, 0, dotted, false) == Token(LiteralString(text), |q|);
      NextToken(q, 0, dotted, []);
      assert Compile(q, dotted, true).elems == [LiteralString(text)];
      SingleLiteral(text, line);
    }
  }

  /** Except that a quoted bracket still opens a numeric range. */
  lemma QuotedBracketStillOpens(dotted: bool)
    ensures Compile("\\[..]", dotted, true) == Tokens([LiteralString("["), NumRange(-1, -1), LiteralString("]")])
  {
    var text := "\\[..]";
    assert NumRangeAt(text, 1, ']') == Range(-1, -1, 4);
    assert TokenAt(text, 0, dotted, false) == Token(LiteralString("["), 1);
    assert TokenAt(text, 1, dotted, true) == Token(NumRange(-1, -1), 4);
    assert LiteralAt(text, 4, []) == LiteralAt(text, 5, "]");
    assert TokenAt(text, 4, dotted, false) == Token(LiteralString("]"), 5);
    NextToken(text, 0, dotted, []);
    assert [] + [LiteralString("[")] == [LiteralString("[")];
    NextToken(text, 1, dotted, [LiteralString("[")]);
    assert [LiteralString("[")] + [NumRange(-1, -1)] == [LiteralString("["), NumRange(-1, -1)];
    NextToken(text, 4, dotted, [LiteralString("["), NumRange(-1, -1)]);
  }
}
