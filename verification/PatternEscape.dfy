/**
 Which texts a backslash before each special character protects: all but those in which a
 bracket opens a numeric range.
 */
module PatternEscape {
  import opened PatternMeaning
  import opened PatternSyntax

  predicate NeedsEscape(c: char) {
    c == '?' || c == '*' || c == '{' || c == '\\' || c == '['
  }

  function Unit(c: char): (u: string) {
    if NeedsEscape(c) then ['\\', c] else [c]
  }

  /** A backslash before every special character. */
  function Escape(t: string): (q: string) {
    if t == [] then [] else Escape(t[..|t| - 1]) + Unit(t[|t| - 1])
  }

  /** Two dots, digits and a closing bracket from position dots on. */
  predicate Closes(text: string, dots: nat) {
    Is(text, dots, '.') && Is(text, dots + 1, '.') && Is(text, DigitsEnd(text, dots + 2), ']')
  }

  /** A bracket that opens a numeric range. */
  predicate Opens(t: string, i: nat) {
    i < |t| && t[i] == '[' && Closes(t, DigitsEnd(t, i + 1))
  }

  /** Where that range closes. */
  function CloseOf(t: string, i: nat): (end: nat)
    requires Opens(t, i)
    ensures i < end < |t| && t[end] == ']'
  {
    DigitsEnd(t, DigitsEnd(t, i + 1) + 2)
  }

  lemma OpensIs(t: string, i: nat)
    requires i < |t| && t[i] == '['
    ensures Opens(t, i) <==> NumRangeAt(t, i, ']').Range?
    ensures Opens(t, i) ==> NumRangeAt(t, i, ']').end == CloseOf(t, i)
  {}

  /** No bracket of the text opens a numeric range. */
  ghost predicate NothingOpens(t: string) {
    forall i :: 0 <= i < |t| && t[i] == '[' ==> NumRangeAt(t, i, ']').NoRange?
  }

  // ---- where the characters stand ------------------------------------------------------------

  ghost function Pos(t: string, k: nat): (p: nat)
    requires k <= |t|
  {
    if k == 0 then 0 else Pos(t, k - 1) + (if NeedsEscape(t[k - 1]) then 2 else 1)
  }

  /** Character k stands at the end of its unit, alone or behind a backslash. */
  ghost predicate UnitAt(t: string, q: string, k: nat)
    requires k < |t|
  {
    && Pos(t, k + 1) <= |q| && q[Pos(t, k + 1) - 1] == t[k]
    && (NeedsEscape(t[k]) ==> q[Pos(t, k)] == '\\')
  }

  ghost predicate IsEscape(t: string, q: string) {
    |q| == Pos(t, |t|) && forall k {:trigger UnitAt(t, q, k)} :: 0 <= k < |t| ==> UnitAt(t, q, k)
  }

  lemma {:induction false} PosFront(t: string, k: nat)
    requires k < |t|
    ensures Pos(t[..|t| - 1], k) == Pos(t, k)
  {
    if k > 0 { PosFront(t, k - 1); }
  }

  lemma {:induction false} EscapeIs(t: string)
    ensures IsEscape(t, Escape(t))
  {
    if t != [] {
      var n := |t| - 1;
      var front := t[..n];
      EscapeIs(front);
      PosFront(t, n);
      forall k | 0 <= k < |t| ensures UnitAt(t, Escape(t), k) {
        if k < n {
          assert UnitAt(front, Escape(front), k);
          PosFront(t, k);
          PosFront(t, k + 1);
        }
      }
    }
  }

  lemma CharAt(t: string, q: string, k: nat)
    requires k < |t| && IsEscape(t, q)
    ensures var p, next := Pos(t, k), Pos(t, k + 1);
            && p < next <= |q| && q[next - 1] == t[k]
            && (if NeedsEscape(t[k]) then next == p + 2 && q[p] == '\\' else next == p + 1)
  {
    assert UnitAt(t, q, k);
  }

  // ---- numeric ranges are not disturbed ----------------------------------------------------------

  lemma {:induction false} DigitsAgree(t: string, q: string, k: nat)
    requires IsEscape(t, q) && k <= |t|
    ensures Pos(t, k) <= |q| && DigitsEnd(q, Pos(t, k)) == Pos(t, DigitsEnd(t, k))
    decreases |t| - k
  {
    if k < |t| {
      CharAt(t, q, k);
      if IsDigit(t[k]) { DigitsAgree(t, q, k + 1); }
    }
  }

  lemma PlainAt(t: string, q: string, k: nat, c: char)
    requires IsEscape(t, q) && k <= |t| && !NeedsEscape(c)
    ensures Is(q, Pos(t, k), c) <==> Is(t, k, c)
    ensures Is(t, k, c) ==> Pos(t, k + 1) == Pos(t, k) + 1
  {
    if k < |t| { CharAt(t, q, k); }
  }

  lemma ClosesAgrees(t: string, q: string, dots: nat)
    requires IsEscape(t, q) && dots <= |t|
    ensures Closes(q, Pos(t, dots)) <==> Closes(t, dots)
    ensures Closes(t, dots) ==> DigitsEnd(q, Pos(t, dots) + 2) == Pos(t, DigitsEnd(t, dots + 2))
  {
    PlainAt(t, q, dots, '.');
    if Is(t, dots, '.') {
      PlainAt(t, q, dots + 1, '.');
      if Is(t, dots + 1, '.') {
        DigitsAgree(t, q, dots + 2);
        PlainAt(t, q, DigitsEnd(t, dots + 2), ']');
      }
    }
  }

  /** A bracket opens a range in the escaped text exactly when it does in the text. */
  lemma RangeAgrees(t: string, q: string, i: nat, at: int)
    requires IsEscape(t, q) && i < |t| && t[i] == '[' && at == Pos(t, i + 1) - 1
    ensures 0 <= at < |q| && q[at] == '['
    ensures Opens(q, at) <==> Opens(t, i)
    ensures Opens(t, i) ==> CloseOf(q, at) == Pos(t, CloseOf(t, i))
  {
    BracketAt(t, q, i, at);
    var dots, dots' := DigitsEnd(t, i + 1), DigitsEnd(q, at + 1);
    assert dots' == Pos(t, dots) by { DigitsAgree(t, q, i + 1); }
    ClosesAgrees(t, q, dots);
  }

  lemma BracketAt(t: string, q: string, i: nat, at: int)
    requires IsEscape(t, q) && i < |t| && at == Pos(t, i + 1) - 1
    ensures 0 <= at < |q| && q[at] == t[i]
  {
    CharAt(t, q, i);
  }

  // ---- literals and tokens -------------------------------------------------------------------------

  /** The first opening bracket from k on, or the end. */
  ghost function FirstOpen(t: string, k: nat): (f: nat)
    requires k <= |t|
    ensures k <= f <= |t| && (f < |t| ==> Opens(t, f)) && forall i: nat :: k <= i < f ==> !Opens(t, i)
    decreases |t| - k
  {
    if k == |t| || Opens(t, k) then k else FirstOpen(t, k + 1)
  }

  /** What reading a literal at character k gives. */
  ghost function LiteralFrom(t: string, q: string, k: nat, acc: string): (r: Parsed)
    requires IsEscape(t, q) && k <= |t|
  {
    var f := FirstOpen(t, k);
    if f == |t| then Token(LiteralString(acc + t[k..]), |q|)
    else CharAt(t, q, f); Token(LiteralString(acc + t[k..f + 1]), Pos(t, f + 1) - 1)
  }

  lemma LiteralFromNext(t: string, q: string, k: nat, acc: string)
    requires IsEscape(t, q) && k < |t| && !Opens(t, k)
    ensures LiteralFrom(t, q, k, acc) == LiteralFrom(t, q, k + 1, acc + [t[k]])
  {
    var f := FirstOpen(t, k);
    if f == |t| {
      assert acc + t[k..] == (acc + [t[k]]) + t[k + 1..];
    } else {
      assert acc + t[k..f + 1] == (acc + [t[k]]) + t[k + 1..f + 1];
    }
  }

  /** One character of a literal in the escaped text. */
  lemma LiteralStep(t: string, q: string, k: nat, acc: string)
    requires IsEscape(t, q) && k < |t|
    ensures Pos(t, k) < Pos(t, k + 1) <= |q|
    ensures LiteralAt(q, Pos(t, k), acc) ==
            if Opens(t, k) then Token(LiteralString(acc + [t[k]]), Pos(t, k + 1) - 1)
            else LiteralAt(q, Pos(t, k + 1), acc + [t[k]])
  {
    CharAt(t, q, k);
    var next := Pos(t, k + 1);
    if t[k] == '[' {
      RangeAgrees(t, q, k, next - 1);
      OpensIs(q, next - 1);
    }
    LiteralNext(q, Pos(t, k), acc, next);
  }

  lemma {:induction false} EscapedLiteral(t: string, q: string, k: nat, acc: string)
    requires IsEscape(t, q) && k <= |t|
    ensures Pos(t, k) <= |q| && LiteralAt(q, Pos(t, k), acc) == LiteralFrom(t, q, k, acc)
    decreases |t| - k
  {
    if k == |t| {
      assert acc + t[k..] == acc;
    } else {
      LiteralStep(t, q, k, acc);
      if Opens(t, k) {
        assert t[k..k + 1] == [t[k]];
      } else {
        EscapedLiteral(t, q, k + 1, acc + [t[k]]);
        LiteralFromNext(t, q, k, acc);
      }
    }
  }

  lemma LiteralTokenAt(t: string, q: string, k: nat, dotted: bool, after: bool)
    requires IsEscape(t, q) && k < |t|
    ensures Pos(t, k) < |q| && TokenAt(q, Pos(t, k), dotted, after) == LiteralFrom(t, q, k, [])
  {
    CharAt(t, q, k);
    EscapedLiteral(t, q, k, []);
  }

  /** The tokens of the rest: a literal from character k on and, if a bracket opens a range in it,
      the range and a literal that starts with the closing bracket. */
  ghost predicate TokensOf(t: string, k: nat, rest: seq<Elem>)
    requires k <= |t|
  {
    if k == |t| then rest == []
    else
      var f := FirstOpen(t, k);
      if f == |t| then rest == [LiteralString(t[k..])]
      else
        && |rest| >= 3 && rest[0] == LiteralString(t[k..f + 1]) && rest[1].NumRange?
        && rest[2].LiteralString? && rest[2].text != [] && rest[2].text[0] == ']'
  }

  /** A literal that stops at an opening bracket. */
  lemma LiteralToOpen(t: string, q: string, k: nat, dotted: bool, elems: seq<Elem>, f: nat, literal: Elem, at: nat)
    requires IsEscape(t, q) && k < |t| && f < |t| && at == Pos(t, f + 1) - 1 && AllOk(elems)
    requires Pos(t, k) < |q| && TokenAt(q, Pos(t, k), dotted, EndsLiteral(elems)) == Token(literal, at)
    ensures at <= |q| && ElemOk(literal)
    ensures TokensFrom(q, Pos(t, k), dotted, elems) == TokensFrom(q, at, dotted, elems + [literal])
  {
    TokenStep(q, Pos(t, k), dotted, elems, literal, at);
  }

  /** The range behind it. */
  lemma RangeFromOpen(t: string, q: string, f: nat, dotted: bool, elems: seq<Elem>, at: nat) returns (number: Elem)
    requires IsEscape(t, q) && Opens(t, f) && EndsLiteral(elems) && AllOk(elems) && at == Pos(t, f + 1) - 1
    ensures number.NumRange? && ElemOk(number) && at <= |q| && Pos(t, CloseOf(t, f)) <= |q|
    ensures TokensFrom(q, at, dotted, elems) == TokensFrom(q, Pos(t, CloseOf(t, f)), dotted, elems + [number])
  {
    RangeAgrees(t, q, f, at);
    OpensIs(q, at);
    var range := NumRangeAt(q, at, ']');
    number := NumRange(range.lo, range.up);
    TokenStep(q, at, dotted, elems, number, range.end);
  }

  /** A literal to the end. */
  lemma LiteralToEnd(t: string, q: string, k: nat, dotted: bool, elems: seq<Elem>)
    requires IsEscape(t, q) && k < |t| && FirstOpen(t, k) == |t| && AllOk(elems)
    ensures Pos(t, k) <= |q| && TokensFrom(q, Pos(t, k), dotted, elems) == Tokens(elems + [LiteralString(t[k..])])
  {
    LiteralTokenAt(t, q, k, dotted, EndsLiteral(elems));
    assert [] + t[k..] == t[k..];
    TokenStep(q, Pos(t, k), dotted, elems, LiteralString(t[k..]), |q|);
    NoMoreTokens(q, dotted, elems + [LiteralString(t[k..])]);
  }

  lemma {:induction false} EscapedTokens(t: string, q: string, k: nat, dotted: bool, elems: seq<Elem>)
    returns (rest: seq<Elem>)
    requires IsEscape(t, q) && k <= |t| && AllOk(elems)
    ensures Pos(t, k) <= |q| && TokensFrom(q, Pos(t, k), dotted, elems) == Tokens(elems + rest)
    ensures TokensOf(t, k, rest)
    ensures k < |t| ==> rest != [] && rest[0].LiteralString? && rest[0].text != [] && rest[0].text[0] == t[k]
    decreases |t| - k
  {
    var f := FirstOpen(t, k);
    if k == |t| {
      rest := [];
      assert elems + rest == elems;
      NoMoreTokens(q, dotted, elems);
    } else if f == |t| {
      rest := [LiteralString(t[k..])];
      LiteralToEnd(t, q, k, dotted, elems);
    } else {
      var literal, at := LiteralString(t[k..f + 1]), LiteralFrom(t, q, k, []).next;
      LiteralTokenAt(t, q, k, dotted, EndsLiteral(elems));
      assert [] + t[k..f + 1] == t[k..f + 1];
      LiteralToOpen(t, q, k, dotted, elems, f, literal, at);
      var number := RangeFromOpen(t, q, f, dotted, elems + [literal], at);
      var tail := EscapedTokens(t, q, CloseOf(t, f), dotted, (elems + [literal]) + [number]);
      rest := [literal, number] + tail;
      ThreeParts(elems, literal, number, tail);
    }
  }

  lemma ThreeParts(elems: seq<Elem>, a: Elem, b: Elem, tail: seq<Elem>)
    ensures ((elems + [a]) + [b]) + tail == elems + ([a, b] + tail)
  {}

  // ---- the theorem ------------------------------------------------------------------------------------

  lemma EscapeCompiles(t: string, dotted: bool) returns (rest: seq<Elem>)
    ensures Compile(Escape(t), dotted, true) == Tokens(rest) && TokensOf(t, 0, rest)
  {
    EscapeIs(t);
    rest := EscapedTokens(t, Escape(t), 0, dotted, []);
    assert [] + rest == rest;
  }

  /** A text with an opening bracket does not match its own escaped form. */
  lemma OpenNeverMatchesItself(t: string, rest: seq<Elem>)
    requires TokensOf(t, 0, rest) && FirstOpen(t, 0) < |t|
    ensures !Matches(rest, t)
  {
    forall cut ensures !IsCut(rest, t, 0, |t|, cut) { OpenHasNoCut(t, rest, cut); }
  }

  lemma OpenHasNoCut(t: string, rest: seq<Elem>, cut: seq<nat>)
    requires TokensOf(t, 0, rest) && FirstOpen(t, 0) < |t|
    ensures !IsCut(rest, t, 0, |t|, cut)
  {
    var f := FirstOpen(t, 0);
    if |cut| == |rest| + 1 && cut[0] == 0 && IsPiece(rest, t, cut, 0) && IsPiece(rest, t, cut, 1) {
      assert |t[cut[0]..cut[1]]| == f + 1;
      RunEnds(t, f + 1, cut[2]);
      assert !IsPiece(rest, t, cut, 2);
    }
  }

  /** The digits behind an opening bracket are followed by a dot. */
  lemma RunEnds(t: string, i: nat, b: nat)
    requires 0 < i <= |t| && b <= |t| && Opens(t, i - 1)
    ensures DigitRun(t, i, b) ==> b < |t| && t[b] == '.'
  {
    DigitsInside(t, i);
    var e := DigitsEnd(t, i);
    assert DigitRun(t, i, b) ==> b == e;
  }

  lemma OpensSomewhere(t: string)
    ensures NothingOpens(t) <==> FirstOpen(t, 0) == |t|
  {
    forall i | 0 <= i < |t| && t[i] == '[' ensures Opens(t, i) <==> NumRangeAt(t, i, ']').Range? { OpensIs(t, i); }
  }

  /** The escaped text means the text itself exactly when no bracket opens a numeric range. */
  lemma EscapeProtectsWhen(t: string, dotted: bool)
    ensures Compile(Escape(t), dotted, true).Tokens?
    ensures (forall line :: Matches(Compile(Escape(t), dotted, true).elems, line) <==> line == t) <==> NothingOpens(t)
  {
    var rest := EscapeCompiles(t, dotted);
    var f := FirstOpen(t, 0);
    OpensSomewhere(t);
    if NothingOpens(t) {
      forall line ensures Matches(rest, line) <==> line == t {
        if t == [] {
          DescribesNone(line, 0, |line|);
        } else {
          assert t[0..] == t;
          SingleLiteral(t, line);
        }
      }
    } else {
      OpenNeverMatchesItself(t, rest);
    }
  }
}
