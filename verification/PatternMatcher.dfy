/**
 inet::PatternMatcher, in case-sensitive mode: the tokenizer's loops and the backtracking
 matcher with its shortcuts.
 */
module PatternMatchers {
  import opened PatternMeaning
  import opened PatternSyntax

  datatype Outcome = Ok | Thrown(error: Error)

  class PatternMatcher {
    var pattern: seq<Elem>

    constructor ()
      ensures pattern == []
    {
      pattern := [];
    }

    /** A pattern is set: the tokens end in END, which occurs nowhere else. */
    ghost predicate Valid()
      reads this
    {
      pattern != [] && pattern[|pattern| - 1] == End && forall k :: 0 <= k < |pattern| - 1 ==> ElemOk(pattern[k])
    }

    /** The tokens without END. */
    ghost function Elems(): seq<Elem>
      reads this
      requires Valid()
    {
      pattern[..|pattern| - 1]
    }

    // ---- setting the pattern ----------------------------------------------------------------

    method ScanNumber(text: string, i: nat) returns (num: int, j: nat)
      requires i <= |text|
      ensures j == DigitsEnd(text, i) && num == NumberAt(text, i)
    {
      j, num := i, 0;
      while j < |text| && IsDigit(text[j])
        invariant i <= j <= |text| && DigitsEnd(text, j) == DigitsEnd(text, i)
        invariant num == Value(text[i..j]) && forall k :: i <= k < j ==> IsDigit(text[k])
      {
        assert text[i..j + 1][..j - i] == text[i..j];
        num := 10 * num + (text[j] as int - '0' as int);
        j := j + 1;
      }
      if j == i { num := -1; }
    }

    method ParseNumRange(text: string, i: nat, closing: char) returns (r: Range)
      requires i < |text|
      ensures r == NumRangeAt(text, i, closing)
    {
      var lo, s := ScanNumber(text, i + 1);
      if !(Is(text, s, '.') && Is(text, s + 1, '.')) { return NoRange; }
      var up, e := ScanNumber(text, s + 2);
      if !Is(text, e, closing) { return NoRange; }
      return Range(lo, up, e);
    }

    method ParseLiteralString(text: string, i: nat) returns (r: Parsed)
      requires i <= |text|
      ensures r == LiteralAt(text, i, [])
    {
      var s, acc: string := i, [];
      while s < |text| && !Special(text[s])
        invariant i <= s <= |text| && LiteralAt(text, s, acc) == LiteralAt(text, i, [])
        decreases |text| - s
      {
        if text[s] == '\\' {
          if s + 1 == |text| { return Failed(DanglingEscape); }
          s := s + 1;
        }
        acc := acc + [text[s]];
        if text[s] == '[' {
          var range := ParseNumRange(text, s, ']');
          if range.Range? { break; }
        }
        s := s + 1;
      }
      return Token(LiteralString(acc), s);
    }

    method ParseSet(text: string, i: nat) returns (r: Parsed)
      requires i < |text|
      ensures r == SetAt(text, i)
    {
      var s := i + 1;
      var negated := Is(text, s, '^');
      if negated { s := s + 1; }
      var begin, acc: string := s, [];
      while s < |text| && (text[s] != '}' || s == begin)
        invariant begin <= s <= |text| && SetCharsAt(text, begin, s, acc) == SetCharsAt(text, begin, begin, [])
        decreases |text| - s
      {
        if Is(text, s + 1, '-') && s + 2 < |text| && text[s + 2] != '}' {
          acc := acc + [text[s], text[s + 2]];
          s := s + 3;
        } else {
          acc := acc + [text[s], text[s]];
          s := s + 1;
        }
      }
      if s == |text| { return Failed(UnmatchedBrace); }
      return Token(if negated then NegSet(acc) else Set(acc), s + 1);
    }

    method ParseToken(text: string, i: nat, dotted: bool) returns (t: Parsed)
      requires i < |text|
      ensures t == TokenAt(text, i, dotted, EndsLiteral(pattern))
    {
      match text[i]
      case '?' => t := Token(if dotted then CommonChar else AnyChar, i + 1);
      case '[' =>
        var range := NoRange;
        if EndsLiteral(pattern) { range := ParseNumRange(text, i, ']'); }
        if range.NoRange? {
          t := ParseLiteralString(text, i);
        } else {
          t := Token(NumRange(range.lo, range.up), range.end);
        }
      case '{' =>
        var range := ParseNumRange(text, i, '}');
        if range.Range? { t := Token(NumRange(range.lo, range.up), range.end + 1); } else { t := ParseSet(text, i); }
      case '*' =>
        t := if Is(text, i + 1, '*') then Token(AnySeq, i + 2) else Token(if dotted then CommonSeq else AnySeq, i + 1);
      case _ => t := ParseLiteralString(text, i);
    }

    /** The tokenizing loop. */
    method Tokenize(text: string, dotted: bool) returns (outcome: Outcome)
      modifies this
      ensures outcome.Ok? ==> TokensFrom(text, 0, dotted, []) == Tokens(pattern)
      ensures outcome.Thrown? ==> TokensFrom(text, 0, dotted, []) == Bad(outcome.error)
    {
      pattern := [];
      var s: nat := 0;
      while s < |text|
        invariant s <= |text| && AllOk(pattern)
        invariant TokensFrom(text, s, dotted, pattern) == TokensFrom(text, 0, dotted, [])
        decreases Left(text, s, pattern)
      {
        var t := ParseToken(text, s, dotted);
        if t.Failed? { return Thrown(t.error); }
        pattern := pattern + [t.elem];
        s := t.next;
      }
      return Ok;
    }

    /** What follows the loop. */
    method Finish(fullstring: bool)
      requires AllOk(pattern)
      modifies this
      ensures Valid() && Elems() == if fullstring then old(pattern) else WithStars(old(pattern))
    {
      if !fullstring {
        if pattern == [] || pattern[|pattern| - 1] != AnySeq { pattern := pattern + [AnySeq]; }
        if pattern[0] != AnySeq { pattern := [AnySeq] + pattern; }
      }
      ghost var elems := pattern;
      pattern := pattern + [End];
      assert Elems() == elems;
    }

    method SetPattern(text: string, dotted: bool, fullstring: bool) returns (outcome: Outcome)
      modifies this
      ensures outcome.Ok? <==> Compile(text, dotted, fullstring).Tokens?
      ensures outcome.Ok? ==> Valid() && Elems() == Compile(text, dotted, fullstring).elems
      ensures outcome.Thrown? ==> outcome.error == Compile(text, dotted, fullstring).error
    {
      outcome := Tokenize(text, dotted);
      if outcome.Ok? { Finish(fullstring); }
    }

    // ---- matching -----------------------------------------------------------------------------

    method IsInSet(c: char, chars: string) returns (r: bool)
      requires |chars| % 2 == 0
      ensures r <==> InSet(c, chars)
    {
      var i := 0;
      while i < |chars|
        invariant 0 <= i <= |chars| && i % 2 == 0
        invariant forall k :: 0 <= k < i / 2 ==> !InRange(c, chars, k)
      {
        if chars[i] <= c <= chars[i + 1] {
          assert InRange(c, chars, i / 2);
          return true;
        }
        i := i + 2;
      }
      return false;
    }

    /** An element that leaves no choice: where it ends, or that it does not fit. */
    method Step(e: Elem, line: string, i: nat) returns (fits: bool, m: nat)
      requires ElemOk(e) && !e.AnySeq? && !e.CommonSeq? && i <= |line|
      ensures fits ==> Forced(e, line, i, m)
      ensures !fits ==> forall b :: i <= b <= |line| ==> !Fits(e, line, i, b)
    {
      fits, m := false, i;
      match e
      case LiteralString(text) =>
        LiteralForced(text, line, i);
        fits, m := i + |text| <= |line| && line[i..i + |text|] == text, i + |text|;
      case NumRange(lo, up) =>
        if DigitAt(line, i) {
          var num, j := ScanNumber(line, i);
          DigitsInside(line, i);
          RunForced(line, i, j, lo, up);
          fits, m := !((lo >= 0 && num < lo) || (up >= 0 && num > up)), j;
        }
      case AnyChar => fits, m := i < |line|, i + 1;
      case CommonChar => fits, m := i < |line| && line[i] != '.', i + 1;
      case Set(chars) =>
        if i < |line| {
          fits := IsInSet(line[i], chars);
          m := i + 1;
        }
      case NegSet(chars) =>
        if i < |line| {
          fits := IsInSet(line[i], chars);
          fits, m := !fits, i + 1;
        }
    }

    /** Decides whether the elements from k on describe the line from i on. */
    method DoMatch(line: string, i: nat, k: nat) returns (r: bool)
      requires Valid() && i <= |line| && k < |pattern|
      ensures r <==> Describes(Elems()[k..], line, i, |line|)
      decreases |pattern| - k
    {
      var s, k := i, k;
      ghost var p, k0 := Elems(), k;
      while true
        invariant k0 <= k < |pattern| && 0 <= s <= |line|
        invariant Describes(p[k..], line, s, |line|) <==> Describes(p[k0..], line, i, |line|)
        decreases |pattern| - k
      {
        var e := pattern[k];
        if e.End? {
          assert p[k..] == [];
          DescribesNone(line, s, |line|);
          return s == |line|;
        }
        assert p[k..][0] == e && p[k..][1..] == p[k + 1..];
        if e.AnySeq? || e.CommonSeq? {
          r := MatchSequence(line, s, k);
          return;
        }
        var fits, m := Step(e, line, s);
        if !fits {
          NoFitNoMatch(p[k..], line, s);
          return false;
        }
        ForcedStep(p[k..], line, s, m);
        s, k := m, k + 1;
      }
    }

    /** The two sequence cases: the shortcuts at the pattern's end, else try every length. */
    method MatchSequence(line: string, i: nat, k: nat) returns (r: bool)
      requires Valid() && i <= |line| && k < |pattern| && (pattern[k].AnySeq? || pattern[k].CommonSeq?)
      ensures r <==> Describes(Elems()[k..], line, i, |line|)
      decreases |pattern| - k, 0
    {
      ghost var p := Elems()[k..];
      if pattern[k].AnySeq? {
        if k == |pattern| - 2 {
          assert p == [AnySeq];
          EndsInAnySeq(line, i);
          return true;
        }
        if k == |pattern| - 3 && pattern[k + 1].LiteralString? {
          assert p == [AnySeq, pattern[k + 1]];
          EndsInLiteral(pattern[k + 1].text, line, i);
          return EndsWith(line[i..], pattern[k + 1].text);
        }
      }
      var s := i;
      while true
        invariant i <= s <= |line|
        invariant Describes(p, line, s, |line|) <==> Describes(p, line, i, |line|)
        decreases |line| - s
      {
        assert p[1..] == Elems()[k + 1..];
        SequenceStep(p, line, s);
        r := DoMatch(line, s, k + 1);
        if r { return; }
        if s == |line| || (pattern[k].CommonSeq? && line[s] == '.') { return false; }
        s := s + 1;
      }
    }

    method MatchesLine(line: string) returns (r: bool)
      requires Valid()
      ensures r <==> Matches(Elems(), line)
    {
      if |pattern| >= 2 {
        var e := pattern[|pattern| - 2];
        if e.LiteralString? && |e.text| >= 2 && |line| >= 2
          && (line[|line| - 1] != e.text[|e.text| - 1] || line[|line| - 2] != e.text[|e.text| - 2])
        {
          ghost var front := pattern[..|pattern| - 2];
          assert Elems() == front + [e];
          LastLiteral(front, e.text, line);
          LastTwo(line, e.text);
          return false;
        }
      }
      assert Elems()[0..] == Elems();
      r := DoMatch(line, 0, 0);
    }
  }

  lemma LastTwo(line: string, text: string)
    requires |text| >= 2
    ensures EndsWith(line, text) ==> line[|line| - 1] == text[|text| - 1] && line[|line| - 2] == text[|text| - 2]
  {
    if EndsWith(line, text) {
      var tail := line[|line| - |text|..];
      assert tail[|text| - 1] == line[|line| - 1] && tail[|text| - 2] == line[|line| - 2];
    }
  }

  /** Set a pattern and match: what the text of a pattern without wildcards promises. */
  method MatchText(text: string, dotted: bool, fullstring: bool, line: string) returns (outcome: Outcome, r: bool)
    ensures outcome.Ok? <==> Compile(text, dotted, true).Tokens?
    ensures outcome.Ok? && fullstring ==> (r <==> Matches(Compile(text, dotted, true).elems, line))
    ensures outcome.Ok? && !fullstring ==> (r <==> Somewhere(Compile(text, dotted, true).elems, line))
    ensures fullstring && !ContainsWildcards(text) ==> outcome.Ok? && (r <==> line == text)
  {
    var matcher := new PatternMatcher();
    r := false;
    outcome := matcher.SetPattern(text, dotted, fullstring);
    if outcome.Ok? {
      r := matcher.MatchesLine(line);
      SubstringMode(Compile(text, dotted, true).elems, line);
    }
    if !ContainsWildcards(text) { PlainMatchesItself(text, dotted, line); }
  }
}
