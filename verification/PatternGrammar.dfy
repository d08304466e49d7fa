/**
 The grammar of pattern texts, and the proof that the tokenizer reads exactly it: a text is
 accepted if and only if it is spelled by a sequence of pieces, and its tokens are what the
 pieces mean.
 */
module PatternGrammar {
  import opened Sequences
  import opened PatternMeaning
  import opened PatternSyntax

  // ---- pieces and their meaning -----------------------------------------------------------------

  /** A character of a literal, alone or behind a backslash. */
  datatype Mark = Plain(c: char) | Quoted(c: char)

  /** A member of a set: "x" or "a-z". */
  datatype Member = One(a: char) | Span(a: char, b: char)

  datatype Piece =
    | Literal(marks: seq<Mark>)
    | Question
    | Star
    | DoubleStar
    | Braces(negated: bool, members: seq<Member>)
    | Number(lo: string, up: string)     // {lo..up}
    | Bracketed(lo: string, up: string)  // [lo..up], behind a literal that ends with the bracket

  function Chars(marks: seq<Mark>): (s: string) {
    if marks == [] then "" else [marks[0].c] + Chars(marks[1..])
  }

  function RangeOf(m: Member): (s: string) {
    match m
    case One(a) => [a, a]
    case Span(a, b) => [a, b]
  }

  function Ranges(members: seq<Member>): (s: string) {
    if members == [] then "" else RangeOf(members[0]) + Ranges(members[1..])
  }

  /** A bound of a numeric range, -1 if there is none. */
  function Bound(digits: string): (n: int) {
    if digits == "" then -1 else Value(digits)
  }

  function Means(piece: Piece, dotted: bool): (e: Elem) {
    match piece
    case Literal(marks) => LiteralString(Chars(marks))
    case Question => if dotted then CommonChar else AnyChar
    case Star => if dotted then CommonSeq else AnySeq
    case DoubleStar => AnySeq
    case Braces(negated, members) => if negated then NegSet(Ranges(members)) else Set(Ranges(members))
    case Number(lo, up) => NumRange(Bound(lo), Bound(up))
    case Bracketed(lo, up) => NumRange(Bound(lo), Bound(up))
  }

  // ---- spelling -----------------------------------------------------------------------------------

  ghost predicate Numeral(s: string) {
    forall k :: 0 <= k < |s| ==> IsDigit(s[k])
  }

  function RangeText(open: char, lo: string, up: string, close: char): (s: string) {
    [open] + lo + ".." + up + [close]
  }

  /** A numeric range stands at p. */
  ghost predicate RangeAt(text: string, p: nat, open: char, lo: string, up: string, close: char) {
    Numeral(lo) && Numeral(up) && Stands(text, p, RangeText(open, lo, up, close))
  }

  ghost predicate Opens(text: string, p: nat, open: char, close: char) {
    exists lo, up :: RangeAt(text, p, open, lo, up, close)
  }

  function MarkText(m: Mark): (s: string)
    ensures s != []
  {
    if m.Plain? then [m.c] else ['\\', m.c]
  }

  /** The marks of a literal from i on, up to next: to a wildcard, to the end of the text, or to a
      bracket that opens a numeric range, which belongs to the literal and is not passed. */
  ghost predicate MarksAt(text: string, i: nat, marks: seq<Mark>, next: nat)
    decreases |marks|
  {
    if marks == [] then next == i <= |text| && (i < |text| ==> Special(text[i]))
    else
      var m := marks[0];
      var j := i + |MarkText(m)| - 1;
      && Stands(text, i, MarkText(m)) && (m.Plain? ==> !Special(m.c) && m.c != '\\')
      && if Opens(text, j, '[', ']') then marks[1..] == [] && next == j else MarksAt(text, j + 1, marks[1..], next)
  }

  function MemberText(m: Member): (s: string)
    ensures s != [] && s[0] == m.a
  {
    if m.One? then [m.a] else [m.a, '-', m.b]
  }

  /** The members stand one after the other from i on, up to the closing brace at end. */
  ghost predicate MembersAt(text: string, i: nat, members: seq<Member>, end: nat)
    decreases |members|
  {
    if members == [] then end == i && Is(text, i, '}')
    else
      && Stands(text, i, MemberText(members[0]))
      && MembersAt(text, i + |MemberText(members[0])|, members[1..], end)
  }

  /** A closing brace comes first or not at all; a dash behind a single member comes last. */
  ghost predicate MembersOk(members: seq<Member>, first: bool)
    decreases |members|
  {
    members != [] ==>
      var m, rest := members[0], members[1..];
      && (m.a == '}' ==> first) && (m.Span? ==> m.b != '}')
      && (m.One? && rest != [] && rest[0].a == '-' ==> rest == [One('-')])
      && MembersOk(rest, false)
  }

  function Opening(negated: bool): (s: string) {
    if negated then "{^" else "{"
  }

  ghost predicate BracesAt(text: string, p: nat, negated: bool, members: seq<Member>, end: nat) {
    && members != [] && MembersOk(members, true) && (!negated ==> members[0].a != '^')
    && Stands(text, p, Opening(negated)) && MembersAt(text, p + |Opening(negated)|, members, end)
    && !Opens(text, p, '{', '}')
  }

  /** The piece stands at p, behind a literal or not, and the next one starts at next. */
  ghost predicate PieceAt(text: string, p: nat, piece: Piece, next: nat, literal: bool) {
    match piece
    case Question => Is(text, p, '?') && next == p + 1
    case Star => Is(text, p, '*') && !Is(text, p + 1, '*') && next == p + 1
    case DoubleStar => Is(text, p, '*') && Is(text, p + 1, '*') && next == p + 2
    case Number(lo, up) => RangeAt(text, p, '{', lo, up, '}') && next == p + |lo| + |up| + 4
    case Braces(negated, members) => next > 0 && BracesAt(text, p, negated, members, next - 1)
    case Bracketed(lo, up) => literal && RangeAt(text, p, '[', lo, up, ']') && next == p + |lo| + |up| + 3
    case Literal(marks) =>
      marks != [] && MarksAt(text, p, marks, next) && !(literal && Opens(text, p, '[', ']'))
  }

  ghost predicate Spelled(text: string, p: nat, pieces: seq<Piece>, literal: bool)
    decreases |pieces|
  {
    if pieces == [] then p == |text|
    else p < |text| && exists next: nat :: SpelledVia(text, p, pieces, literal, next)
  }

  ghost predicate SpelledVia(text: string, p: nat, pieces: seq<Piece>, literal: bool, next: nat)
    requires pieces != []
    decreases |pieces|, 0
  {
    PieceAt(text, p, pieces[0], next, literal) && Spelled(text, next, pieces[1..], pieces[0].Literal?)
  }

  // ---- numeric ranges -----------------------------------------------------------------------------

  lemma {:induction false} DigitsStop(text: string, p: nat, s: string)
    requires Numeral(s) && Stands(text, p, s) && !DigitAt(text, p + |s|)
    ensures DigitsEnd(text, p) == p + |s|
    decreases |s|
  {
    if s != "" {
      StandsAt(text, p, s, 0);
      assert s == [s[0]] + s[1..];
      StandsParts(text, p, [s[0]], s[1..]);
      DigitsStop(text, p + 1, s[1..]);
    }
  }

  lemma BoundRead(text: string, p: nat, s: string)
    requires Numeral(s) && Stands(text, p, s) && !DigitAt(text, p + |s|)
    ensures DigitsEnd(text, p) == p + |s| && NumberAt(text, p) == Bound(s)
  {
    DigitsStop(text, p, s);
    if s != "" { StandsAt(text, p, s, 0); }
  }

  lemma RangeParts(text: string, p: nat, open: char, lo: string, up: string, close: char)
    requires Stands(text, p, RangeText(open, lo, up, close))
    ensures var dots := p + 1 + |lo|; var end := dots + 2 + |up|;
            && end < |text| && Stands(text, p + 1, lo) && Stands(text, dots + 2, up)
            && text[p] == open && text[dots] == '.' && text[dots + 1] == '.' && text[end] == close
  {
    var dots := p + 1 + |lo|;
    StandsParts(text, p, [open] + lo + ".." + up, [close]);
    StandsParts(text, p, [open] + lo + "..", up);
    StandsParts(text, p, [open] + lo, "..");
    StandsParts(text, p, [open], lo);
    StandsAt(text, p, [open], 0);
    StandsAt(text, dots, "..", 0);
    StandsAt(text, dots, "..", 1);
    StandsAt(text, dots + 2 + |up|, [close], 0);
  }

  /** What stands there is read with its bounds. */
  lemma RangeRead(text: string, p: nat, open: char, lo: string, up: string, close: char)
    requires RangeAt(text, p, open, lo, up, close) && !IsDigit(close)
    ensures p < |text| && text[p] == open
    ensures NumRangeAt(text, p, close) == Range(Bound(lo), Bound(up), p + |lo| + |up| + 3)
  {
    var dots := p + 1 + |lo|;
    RangeParts(text, p, open, lo, up, close);
    BoundRead(text, p + 1, lo);
    BoundRead(text, dots + 2, up);
    RangeIs(text, p, dots, dots + 2 + |up|, close);
  }

  lemma RangeIs(text: string, p: nat, dots: nat, end: nat, close: char)
    requires p < dots < dots + 2 <= end < |text| && dots == DigitsEnd(text, p + 1) && end == DigitsEnd(text, dots + 2)
    requires text[dots] == '.' && text[dots + 1] == '.' && text[end] == close
    ensures NumRangeAt(text, p, close) == Range(NumberAt(text, p + 1), NumberAt(text, dots + 2), end)
  {}

  /** What is read stands there. */
  lemma RangeFound(text: string, p: nat, open: char, close: char) returns (lo: string, up: string)
    requires p < |text| && text[p] == open && NumRangeAt(text, p, close).Range?
    ensures RangeAt(text, p, open, lo, up, close)
  {
    var dots := DigitsEnd(text, p + 1);
    var end := DigitsEnd(text, dots + 2);
    lo := BoundFound(text, p + 1, dots);
    up := BoundFound(text, dots + 2, end);
    RangeStands(text, p, dots, end, lo, up);
  }

  lemma BoundFound(text: string, i: nat, end: nat) returns (s: string)
    requires i <= |text| && end == DigitsEnd(text, i)
    ensures Numeral(s) && s == text[i..end]
  {
    DigitsInside(text, i);
    s := text[i..end];
  }

  lemma RangeStands(text: string, p: nat, dots: nat, end: nat, lo: string, up: string)
    requires p < dots && dots + 2 <= end < |text| && text[dots] == '.' && text[dots + 1] == '.'
    requires lo == text[p + 1..dots] && up == text[dots + 2..end]
    ensures Stands(text, p, RangeText(text[p], lo, up, text[end]))
  {
    var s, t := RangeText(text[p], lo, up, text[end]), text[p..end + 1];
    assert |s| == |t|;
    forall k | 0 <= k < |s| ensures s[k] == t[k] {}
  }

  lemma OpensWhen(text: string, p: nat, open: char, close: char)
    requires p < |text| && !IsDigit(close)
    ensures Opens(text, p, open, close) <==> text[p] == open && NumRangeAt(text, p, close).Range?
  {
    if lo, up :| RangeAt(text, p, open, lo, up, close) { RangeRead(text, p, open, lo, up, close); }
    if text[p] == open && NumRangeAt(text, p, close).Range? {
      var lo, up := RangeFound(text, p, open, close);
    }
  }

  // ---- literals -------------------------------------------------------------------------------------

  /** One mark of a literal, as the tokenizer takes it. */
  lemma MarkRead(text: string, i: nat, m: Mark, acc: string)
    requires Stands(text, i, MarkText(m)) && (m.Plain? ==> !Special(m.c) && m.c != '\\')
    ensures var j := i + |MarkText(m)| - 1;
            && j < |text| && text[j] == m.c
            && LiteralAt(text, i, acc) ==
               if Opens(text, j, '[', ']') then Token(LiteralString(acc + [m.c]), j)
               else LiteralAt(text, j + 1, acc + [m.c])
  {
    var j := i + |MarkText(m)| - 1;
    StandsAt(text, i, MarkText(m), 0);
    StandsAt(text, i, MarkText(m), |MarkText(m)| - 1);
    OpensWhen(text, j, '[', ']');
    LiteralNext(text, i, acc, j + 1);
  }

  lemma {:induction false} MarksRead(text: string, i: nat, marks: seq<Mark>, next: nat, acc: string, goal: string)
    requires MarksAt(text, i, marks, next) && goal == acc + Chars(marks)
    ensures i <= |text| && LiteralAt(text, i, acc) == Token(LiteralString(goal), next)
    decreases |marks|
  {
    if marks == [] {
      assert acc + "" == acc;
    } else {
      var m, rest := marks[0], marks[1..];
      var j := i + |MarkText(m)| - 1;
      MarkTaken(text, i, marks, m, rest, j, next, acc);
      CharsNext(acc, marks, m, rest, goal);
      if !Opens(text, j, '[', ']') { MarksRead(text, j + 1, rest, next, acc + [m.c], goal); }
    }
  }

  lemma MarkTaken(text: string, i: nat, marks: seq<Mark>, m: Mark, rest: seq<Mark>, j: nat, next: nat, acc: string)
    requires marks != [] && m == marks[0] && rest == marks[1..] && j == i + |MarkText(m)| - 1
    requires MarksAt(text, i, marks, next)
    ensures j < |text|
    ensures if Opens(text, j, '[', ']')
            then rest == [] && LiteralAt(text, i, acc) == Token(LiteralString(acc + [m.c]), next)
            else MarksAt(text, j + 1, rest, next) && LiteralAt(text, i, acc) == LiteralAt(text, j + 1, acc + [m.c])
  {
    MarkRead(text, i, m, acc);
  }

  lemma CharsNext(acc: string, marks: seq<Mark>, m: Mark, rest: seq<Mark>, goal: string)
    requires marks != [] && m == marks[0] && rest == marks[1..] && goal == acc + Chars(marks)
    ensures goal == (acc + [m.c]) + Chars(rest) && (rest == [] ==> goal == acc + [m.c])
  {
    Regroup(acc, [m.c], Chars(rest));
    assert rest == [] ==> [m.c] + Chars(rest) == [m.c];
  }

  lemma {:induction false} MarksFound(text: string, i: nat, acc: string) returns (marks: seq<Mark>)
    requires i <= |text| && LiteralAt(text, i, acc).Token?
    ensures MarksAt(text, i, marks, LiteralAt(text, i, acc).next)
    ensures marks == [] <==> i == |text| || Special(text[i])
    decreases |text| - i
  {
    if i == |text| || Special(text[i]) {
      marks := [];
    } else {
      var m := MarkFound(text, i, acc);
      var j := i + |MarkText(m)| - 1;
      MarkRead(text, i, m, acc);
      var rest := [];
      if !Opens(text, j, '[', ']') { rest := MarksFound(text, j + 1, acc + [m.c]); }
      marks := [m] + rest;
      MarkAdded(text, i, marks, rest, j, LiteralAt(text, i, acc).next);
    }
  }

  lemma MarkFound(text: string, i: nat, acc: string) returns (m: Mark)
    requires i < |text| && !Special(text[i]) && LiteralAt(text, i, acc).Token?
    ensures Stands(text, i, MarkText(m)) && (m.Plain? ==> !Special(m.c) && m.c != '\\')
  {
    m := if text[i] == '\\' then Quoted(text[i + 1]) else Plain(text[i]);
  }

  lemma MarkAdded(text: string, i: nat, marks: seq<Mark>, rest: seq<Mark>, j: nat, next: nat)
    requires marks != [] && rest == marks[1..] && j == i + |MarkText(marks[0])| - 1
    requires Stands(text, i, MarkText(marks[0])) && (marks[0].Plain? ==> !Special(marks[0].c) && marks[0].c != '\\')
    requires if Opens(text, j, '[', ']') then rest == [] && next == j else MarksAt(text, j + 1, rest, next)
    ensures MarksAt(text, i, marks, next)
  {}

  // ---- sets ---------------------------------------------------------------------------------------

  /** One member of a set, as the tokenizer takes it. */
  lemma MemberRead(text: string, i: nat, m: Member)
    requires Stands(text, i, MemberText(m)) && (m.Span? ==> m.b != '}')
    requires m.One? ==> !(Is(text, i + 1, '-') && i + 2 < |text| && text[i + 2] != '}')
    ensures i < |text| && text[i] == m.a
    ensures SetRangeAt(text, i) == (RangeOf(m), i + |MemberText(m)|)
  {
    StandsAt(text, i, MemberText(m), 0);
    if m.Span? {
      StandsAt(text, i, MemberText(m), 1);
      StandsAt(text, i, MemberText(m), 2);
    }
  }

  lemma FirstMember(text: string, i: nat, members: seq<Member>, end: nat)
    requires MembersAt(text, i, members, end)
    ensures Is(text, i, if members == [] then '}' else members[0].a)
  {
    if members != [] { StandsAt(text, i, MemberText(members[0]), 0); }
  }

  /** A dash behind a single member does not make a range. */
  lemma NoDash(text: string, i: nat, members: seq<Member>, end: nat)
    requires members != [] && members[0].One? && MembersOk(members, true) && MembersAt(text, i, members, end)
    ensures !(Is(text, i + 1, '-') && i + 2 < |text| && text[i + 2] != '}')
  {
    var rest := members[1..];
    FirstMember(text, i + 1, rest, end);
    if rest == [One('-')] { FirstMember(text, i + 2, rest[1..], end); }
  }

  lemma MembersOkFirst(members: seq<Member>, first: bool)
    requires MembersOk(members, first)
    ensures MembersOk(members, true)
  {}

  lemma {:induction false} MembersRead(
    text: string, begin: nat, i: nat, members: seq<Member>, end: nat, acc: string, chars: string)
    requires begin <= i && MembersOk(members, i == begin) && (i == begin ==> members != [])
    requires MembersAt(text, i, members, end) && chars == acc + Ranges(members)
    ensures i <= |text| && SetCharsAt(text, begin, i, acc) == (chars, end) && Is(text, end, '}')
    decreases |members|
  {
    if members == [] {
      assert acc + "" == acc;
    } else {
      var m, rest := members[0], members[1..];
      var next := i + |MemberText(m)|;
      MemberTaken(text, begin, i, members, end, acc, next);
      Regroup(acc, RangeOf(m), Ranges(rest));
      MembersRead(text, begin, next, rest, end, acc + RangeOf(m), chars);
    }
  }

  lemma MemberTaken(text: string, begin: nat, i: nat, members: seq<Member>, end: nat, acc: string, next: nat)
    requires begin <= i && members != [] && MembersOk(members, i == begin)
    requires MembersAt(text, i, members, end) && next == i + |MemberText(members[0])|
    ensures begin < next <= |text|
    ensures SetCharsAt(text, begin, i, acc) == SetCharsAt(text, begin, next, acc + RangeOf(members[0]))
  {
    MembersOkFirst(members, i == begin);
    if members[0].One? { NoDash(text, i, members, end); }
    MemberRead(text, i, members[0]);
  }

  lemma {:induction false} MembersFound(text: string, begin: nat, i: nat, acc: string)
    returns (members: seq<Member>, end: nat)
    requires begin <= i <= |text| && SetCharsAt(text, begin, i, acc).1 < |text|
    ensures MembersOk(members, i == begin) && (i == begin ==> members != [])
    ensures end == SetCharsAt(text, begin, i, acc).1 && MembersAt(text, i, members, end)
    decreases |text| - i
  {
    if text[i] == '}' && i != begin {
      members, end := [], i;
    } else {
      var range := SetRangeAt(text, i);
      var next := range.1;
      var m := if next == i + 3 then Span(text[i], text[i + 2]) else One(text[i]);
      var rest;
      rest, end := MembersFound(text, begin, next, acc + range.0);
      members := [m] + rest;
      MemberAdded(text, i, m, rest, members, next, i == begin, end);
    }
  }

  lemma MemberAdded(
    text: string, i: nat, m: Member, rest: seq<Member>, members: seq<Member>, next: nat, first: bool, end: nat)
    requires i < |text| && next == SetRangeAt(text, i).1 && (text[i] == '}' ==> first) && members == [m] + rest
    requires m == if next == i + 3 then Span(text[i], text[i + 2]) else One(text[i])
    requires MembersOk(rest, false) && MembersAt(text, next, rest, end)
    ensures MembersOk(members, first) && MembersAt(text, i, members, end)
  {
    assert members[1..] == rest;
    assert Stands(text, i, MemberText(m));
    if m.One? && rest != [] && rest[0].a == '-' {
      FirstMember(text, next, rest, end);
      DashLast(text, next, rest, end);
    }
  }

  lemma DashLast(text: string, i: nat, members: seq<Member>, end: nat)
    requires members != [] && MembersOk(members, false) && MembersAt(text, i, members, end)
    requires members[0].a == '-' && Is(text, i + 1, '}')
    ensures members == [One('-')]
  {
    DashInside(text, i, members[0]);
    FirstMember(text, i + 1, members[1..], end);
  }

  lemma DashInside(text: string, i: nat, m: Member)
    requires Stands(text, i, MemberText(m))
    ensures m.Span? ==> Is(text, i + 1, '-')
  {
    if m.Span? { StandsAt(text, i, MemberText(m), 1); }
  }

  lemma BracesRead(text: string, p: nat, negated: bool, members: seq<Member>, end: nat)
    requires BracesAt(text, p, negated, members, end)
    ensures p < |text| && text[p] == '{' && end < |text| && NumRangeAt(text, p, '}').NoRange?
    ensures SetAt(text, p) == Token(Means(Braces(negated, members), false), end + 1)
  {
    var begin := p + |Opening(negated)|;
    OpeningRead(text, p, negated, members, end);
    assert [] + Ranges(members) == Ranges(members);
    MembersRead(text, begin, begin, members, end, [], Ranges(members));
    SetIs(text, p, negated, begin, Ranges(members), end);
    OpensWhen(text, p, '{', '}');
  }

  lemma OpeningRead(text: string, p: nat, negated: bool, members: seq<Member>, end: nat)
    requires BracesAt(text, p, negated, members, end)
    ensures Is(text, p, '{') && (Is(text, p + 1, '^') <==> negated)
  {
    StandsAt(text, p, Opening(negated), 0);
    if negated { StandsAt(text, p, Opening(negated), 1); }
    FirstMember(text, p + |Opening(negated)|, members, end);
  }

  lemma SetIs(text: string, p: nat, negated: bool, begin: nat, chars: string, end: nat)
    requires p < |text| && (Is(text, p + 1, '^') <==> negated) && begin == (if negated then p + 2 else p + 1)
    requires begin <= |text| && SetCharsAt(text, begin, begin, []) == (chars, end) && end < |text|
    ensures SetAt(text, p) == Token(if negated then NegSet(chars) else Set(chars), end + 1)
  {}

  lemma BracesFound(text: string, p: nat) returns (negated: bool, members: seq<Member>, end: nat)
    requires p < |text| && text[p] == '{' && NumRangeAt(text, p, '}').NoRange? && SetAt(text, p).Token?
    ensures BracesAt(text, p, negated, members, end)
  {
    negated := Is(text, p + 1, '^');
    var begin := p + |Opening(negated)|;
    members, end := MembersFound(text, begin, begin, []);
    FirstMember(text, begin, members, end);
    OpeningStands(text, p, negated);
    OpensWhen(text, p, '{', '}');
  }

  lemma OpeningStands(text: string, p: nat, negated: bool)
    requires Is(text, p, '{') && (negated ==> Is(text, p + 1, '^'))
    ensures Stands(text, p, Opening(negated))
  {}

  // ---- one token ------------------------------------------------------------------------------------

  /** A piece that stands in the text is read, with its meaning. */
  lemma PieceRead(text: string, p: nat, piece: Piece, next: nat, literal: bool, dotted: bool)
    requires p < |text| && PieceAt(text, p, piece, next, literal)
    ensures next <= |text| && TokenAt(text, p, dotted, literal) == Token(Means(piece, dotted), next)
  {
    match piece
    case Question =>
    case Star =>
    case DoubleStar =>
    case Number(lo, up) => RangeToken(text, p, lo, up, dotted, literal);
    case Braces(negated, members) => BracesToken(text, p, negated, members, next - 1, dotted, literal);
    case Bracketed(lo, up) => BracketToken(text, p, lo, up, dotted);
    case Literal(marks) => LiteralToken(text, p, marks, next, dotted, literal);
  }

  lemma RangeToken(text: string, p: nat, lo: string, up: string, dotted: bool, literal: bool)
    requires RangeAt(text, p, '{', lo, up, '}')
    ensures p + |lo| + |up| + 4 <= |text|
    ensures TokenAt(text, p, dotted, literal) == Token(NumRange(Bound(lo), Bound(up)), p + |lo| + |up| + 4)
  {
    RangeRead(text, p, '{', lo, up, '}');
  }

  lemma BracesToken(
    text: string, p: nat, negated: bool, members: seq<Member>, end: nat, dotted: bool, literal: bool)
    requires BracesAt(text, p, negated, members, end)
    ensures p < |text| && end < |text|
    ensures TokenAt(text, p, dotted, literal) == Token(Means(Braces(negated, members), dotted), end + 1)
  {
    BracesRead(text, p, negated, members, end);
  }

  lemma BracketToken(text: string, p: nat, lo: string, up: string, dotted: bool)
    requires RangeAt(text, p, '[', lo, up, ']')
    ensures p + |lo| + |up| + 3 <= |text|
    ensures TokenAt(text, p, dotted, true) == Token(NumRange(Bound(lo), Bound(up)), p + |lo| + |up| + 3)
  {
    RangeRead(text, p, '[', lo, up, ']');
  }

  lemma LiteralToken(text: string, p: nat, marks: seq<Mark>, next: nat, dotted: bool, literal: bool)
    requires marks != [] && MarksAt(text, p, marks, next) && !(literal && Opens(text, p, '[', ']'))
    ensures p < |text| && next <= |text|
    ensures TokenAt(text, p, dotted, literal) == Token(LiteralString(Chars(marks)), next)
  {
    LiteralRead(text, p, marks, next);
    OpensWhen(text, p, '[', ']');
  }

  lemma LiteralRead(text: string, p: nat, marks: seq<Mark>, next: nat)
    requires marks != [] && MarksAt(text, p, marks, next)
    ensures p < |text| && !Special(text[p]) && next <= |text|
    ensures LiteralAt(text, p, []) == Token(LiteralString(Chars(marks)), next)
  {
    assert [] + Chars(marks) == Chars(marks);
    MarksRead(text, p, marks, next, [], Chars(marks));
    StandsAt(text, p, MarkText(marks[0]), 0);
  }

  /** What is read is a piece that stands in the text. */
  lemma PieceFound(text: string, p: nat, dotted: bool, literal: bool) returns (piece: Piece)
    requires p < |text| && TokenAt(text, p, dotted, literal).Token?
    ensures PieceAt(text, p, piece, TokenAt(text, p, dotted, literal).next, literal)
  {
    if text[p] == '?' {
      piece := Question;
    } else if text[p] == '*' {
      piece := if Is(text, p + 1, '*') then DoubleStar else Star;
    } else if text[p] == '{' {
      piece := BraceFound(text, p, dotted, literal);
    } else if literal && text[p] == '[' && NumRangeAt(text, p, ']').Range? {
      var lo, up := RangeFound(text, p, '[', ']');
      BracketToken(text, p, lo, up, dotted);
      piece := Bracketed(lo, up);
    } else {
      OpensWhen(text, p, '[', ']');
      var marks := MarksFound(text, p, []);
      piece := Literal(marks);
    }
  }

  lemma BraceFound(text: string, p: nat, dotted: bool, literal: bool) returns (piece: Piece)
    requires p < |text| && text[p] == '{' && TokenAt(text, p, dotted, literal).Token?
    ensures PieceAt(text, p, piece, TokenAt(text, p, dotted, literal).next, literal)
  {
    if NumRangeAt(text, p, '}').Range? {
      var lo, up := RangeFound(text, p, '{', '}');
      RangeToken(text, p, lo, up, dotted, literal);
      piece := Number(lo, up);
    } else {
      var negated, members, end := BracesFound(text, p);
      BracesToken(text, p, negated, members, end, dotted, literal);
      piece := Braces(negated, members);
    }
  }

  // ---- the whole text -------------------------------------------------------------------------------

  function Meanings(pieces: seq<Piece>, dotted: bool): (elems: seq<Elem>) {
    if pieces == [] then [] else [Means(pieces[0], dotted)] + Meanings(pieces[1..], dotted)
  }

  lemma {:induction false} SpelledRead(text: string, p: nat, pieces: seq<Piece>, dotted: bool, before: seq<Elem>)
    requires p <= |text| && AllOk(before) && Spelled(text, p, pieces, EndsLiteral(before))
    ensures TokensFrom(text, p, dotted, before) == Tokens(before + Meanings(pieces, dotted))
    decreases |pieces|
  {
    if pieces == [] {
      assert before + [] == before;
    } else {
      var next: nat :| SpelledVia(text, p, pieces, EndsLiteral(before), next);
      var e := Means(pieces[0], dotted);
      PieceRead(text, p, pieces[0], next, EndsLiteral(before), dotted);
      TokenStep(text, p, dotted, before, e, next);
      SpelledRead(text, next, pieces[1..], dotted, before + [e]);
      Regroup(before, [e], Meanings(pieces[1..], dotted));
    }
  }

  lemma {:induction false} SpelledFound(text: string, p: nat, dotted: bool, before: seq<Elem>)
    returns (pieces: seq<Piece>)
    requires p <= |text| && AllOk(before) && TokensFrom(text, p, dotted, before).Tokens?
    ensures Spelled(text, p, pieces, EndsLiteral(before))
    decreases Left(text, p, before)
  {
    if p == |text| {
      pieces := [];
    } else {
      var t := TokenAt(text, p, dotted, EndsLiteral(before));
      var piece := PieceFound(text, p, dotted, EndsLiteral(before));
      PieceRead(text, p, piece, t.next, EndsLiteral(before), dotted);
      TokenStep(text, p, dotted, before, t.elem, t.next);
      var rest := SpelledFound(text, t.next, dotted, before + [t.elem]);
      pieces := [piece] + rest;
      assert pieces[1..] == rest;
      assert SpelledVia(text, p, pieces, EndsLiteral(before), t.next);
    }
  }

  /** The tokenizer accepts exactly the texts of the grammar, and the tokens are their meaning. */
  lemma CompileIsGrammar(text: string, dotted: bool, elems: seq<Elem>)
    ensures Compile(text, dotted, true) == Tokens(elems) <==>
            exists pieces :: Spelled(text, 0, pieces, false) && Meanings(pieces, dotted) == elems
  {
    if pieces :| Spelled(text, 0, pieces, false) && Meanings(pieces, dotted) == elems {
      SpelledRead(text, 0, pieces, dotted, []);
      assert [] + elems == elems;
    }
    if Compile(text, dotted, true) == Tokens(elems) {
      var pieces := SpelledFound(text, 0, dotted, []);
      SpelledRead(text, 0, pieces, dotted, []);
      assert [] + Meanings(pieces, dotted) == Meanings(pieces, dotted);
    }
  }

  /** Undotted patterns have no element that treats a dot as special. */
  lemma {:induction false} UndottedMeanings(pieces: seq<Piece>)
    ensures forall e :: e in Meanings(pieces, false) ==> !e.CommonChar? && !e.CommonSeq?
  {
    if pieces != [] { UndottedMeanings(pieces[1..]); }
  }

  lemma UndottedCompile(text: string, fullstring: bool)
    requires Compile(text, false, fullstring).Tokens?
    ensures forall e :: e in Compile(text, false, fullstring).elems ==> !e.CommonChar? && !e.CommonSeq?
  {
    var pieces := SpelledFound(text, 0, false, []);
    SpelledRead(text, 0, pieces, false, []);
    assert [] + Meanings(pieces, false) == Meanings(pieces, false);
    UndottedMeanings(pieces);
  }

  /** A lone star matches every line, or in a dotted path every line without a dot. */
  lemma StarMatches(line: string)
    ensures Compile("*", false, true) == Tokens([AnySeq]) && Matches([AnySeq], line)
    ensures Compile("*", true, true) == Tokens([CommonSeq])
    ensures Matches([CommonSeq], line) <==> forall i :: 0 <= i < |line| ==> line[i] != '.'
  {
    OnePiece("*", Star, false);
    OnePiece("*", Star, true);
    DescribesOne(AnySeq, line, 0, |line|);
    DescribesOne(CommonSeq, line, 0, |line|);
  }

  const DIGITS: string := "0123456789"

  function Decimal(n: nat): (s: string)
    ensures s != []
  {
    if n < 10 then [DIGITS[n]] else Decimal(n / 10) + [DIGITS[n % 10]]
  }

  lemma {:induction false} DecimalValue(n: nat)
    ensures Numeral(Decimal(n)) && Value(Decimal(n)) == n
  {
    var s := Decimal(n);
    var k := |s| - 1;
    if n < 10 {
      assert s[..k] == "";
    } else {
      DecimalValue(n / 10);
      assert s[..k] == Decimal(n / 10);
    }
  }

  /** "{lo..up}" matches the decimal text of a number exactly when the number lies between them. */
  lemma NumberMatches(lo: nat, up: nat, n: nat, dotted: bool)
    ensures Compile(RangeText('{', Decimal(lo), Decimal(up), '}'), dotted, true) == Tokens([NumRange(lo, up)])
    ensures Matches([NumRange(lo, up)], Decimal(n)) <==> lo <= n <= up
  {
    var a, b, line := Decimal(lo), Decimal(up), Decimal(n);
    var text, piece := RangeText('{', a, b, '}'), Number(a, b);
    DecimalValue(lo);
    DecimalValue(up);
    DecimalValue(n);
    assert RangeAt(text, 0, '{', a, b, '}');
    OnePiece(text, piece, dotted);
    assert line[0..|line|] == line;
    DescribesOne(NumRange(lo, up), line, 0, |line|);
  }

  lemma OnePiece(text: string, piece: Piece, dotted: bool)
    requires text != "" && PieceAt(text, 0, piece, |text|, false)
    ensures Compile(text, dotted, true) == Tokens([Means(piece, dotted)])
  {
    assert [piece][1..] == [] && SpelledVia(text, 0, [piece], false, |text|);
    SpelledRead(text, 0, [piece], dotted, []);
  }

  lemma {:induction false} LiteralError(text: string, i: nat, acc: string)
    requires i <= |text|
    ensures LiteralAt(text, i, acc).Failed? ==> LiteralAt(text, i, acc).error == DanglingEscape
    ensures LiteralAt(text, i, acc).Failed? ==> text != "" && text[|text| - 1] == '\\'
    decreases |text| - i
  {
    if i < |text| && !Special(text[i]) && !(text[i] == '\\' && i + 1 == |text|) {
      var j := if text[i] == '\\' then i + 1 else i;
      LiteralError(text, j + 1, acc + [text[j]]);
    }
  }

  /** A token fails at a brace that is not closed, or in a text that ends with a backslash. */
  lemma TokenError(text: string, i: nat, dotted: bool, literal: bool)
    requires i < |text| && TokenAt(text, i, dotted, literal).Failed?
    ensures text[i] == '{' ==> TokenAt(text, i, dotted, literal).error == UnmatchedBrace
    ensures text[i] != '{' ==>
              TokenAt(text, i, dotted, literal).error == DanglingEscape && text[|text| - 1] == '\\'
  {
    if text[i] != '{' { LiteralError(text, i, []); }
  }
}
