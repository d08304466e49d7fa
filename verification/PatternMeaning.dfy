/**
 What inet::PatternMatcher's token list means: a line matches when it can be cut into
 consecutive pieces, one for each element, every piece fitting its element.
 */
module PatternMeaning {

  datatype Elem =
    | LiteralString(text: string)
    | AnyChar
    | CommonChar
    | Set(chars: string)
    | NegSet(chars: string)
    | NumRange(fromnum: int, tonum: int)
    | AnySeq
    | CommonSeq
    | End

  predicate IsDigit(c: char) {
    '0' <= c <= '9'
  }

  /** The number a run of digits denotes. */
  function Value(s: string): (r: int)
    ensures (forall i :: 0 <= i < |s| ==> IsDigit(s[i])) ==> r >= 0
  {
    if s == [] then 0 else 10 * Value(s[..|s| - 1]) + (s[|s| - 1] as int - '0' as int)
  }

  /** Characters 2r and 2r + 1 of a set bound its r-th range. */
  predicate InRange(c: char, chars: string, r: int) {
    0 <= r < |chars| / 2 && chars[2 * r] <= c <= chars[2 * r + 1]
  }

  ghost predicate InSet(c: char, chars: string) {
    exists r :: InRange(c, chars, r)
  }

  /** line[a..b] is a maximal non-empty run of digits to its right. */
  ghost predicate DigitRun(line: string, a: nat, b: nat)
    requires b <= |line|
  {
    && a < b
    && (forall i :: a <= i < b ==> IsDigit(line[i]))
    && (b < |line| ==> !IsDigit(line[b]))
  }

  predicate Between(num: int, lo: int, up: int) {
    (lo >= 0 ==> lo <= num) && (up >= 0 ==> num <= up)
  }

  /** line[a..b] fits the element. */
  ghost predicate Fits(e: Elem, line: string, a: nat, b: nat)
    requires a <= b <= |line|
  {
    match e
    case LiteralString(text) => line[a..b] == text
    case AnyChar => b == a + 1
    case CommonChar => b == a + 1 && line[a] != '.'
    case Set(chars) => b == a + 1 && InSet(line[a], chars)
    case NegSet(chars) => b == a + 1 && !InSet(line[a], chars)
    case NumRange(lo, up) => DigitRun(line, a, b) && Between(Value(line[a..b]), lo, up)
    case AnySeq => true
    case CommonSeq => forall i :: a <= i < b ==> line[i] != '.'
    case End => a == b == |line|
  }

  /** cut[m] and cut[m + 1] bound the piece of element m. */
  ghost predicate IsCut(p: seq<Elem>, line: string, i: nat, j: nat, cut: seq<nat>) {
    && |cut| == |p| + 1 && cut[0] == i && cut[|p|] == j <= |line|
    && forall m :: 0 <= m < |p| ==> IsPiece(p, line, cut, m)
  }

  ghost predicate IsPiece(p: seq<Elem>, line: string, cut: seq<nat>, m: nat)
    requires m < |p| && |cut| == |p| + 1
  {
    cut[m] <= cut[m + 1] <= |line| && Fits(p[m], line, cut[m], cut[m + 1])
  }

  /** The declarative relation: p describes line[i..j]. */
  ghost predicate Describes(p: seq<Elem>, line: string, i: nat, j: nat) {
    exists cut :: IsCut(p, line, i, j, cut)
  }

  /** The whole line matches. */
  ghost predicate Matches(p: seq<Elem>, line: string) {
    Describes(p, line, 0, |line|)
  }

  // ---- the same, element by element ----------------------------------------------------------

  /** The first element takes line[i..m] and the others describe line[m..j]. */
  ghost predicate Via(p: seq<Elem>, line: string, i: nat, m: nat, j: nat)
    requires p != []
  {
    i <= m <= j <= |line| && Fits(p[0], line, i, m) && Describes(p[1..], line, m, j)
  }

  lemma DescribesNone(line: string, i: nat, j: nat)
    ensures Describes([], line, i, j) <==> i == j <= |line|
  {
    if i == j <= |line| { assert IsCut([], line, i, j, [i]); }
  }

  lemma {:induction false} CutGrows(p: seq<Elem>, line: string, i: nat, j: nat, cut: seq<nat>, m: nat)
    requires IsCut(p, line, i, j, cut) && m < |cut|
    ensures cut[m] <= j
    decreases |cut| - m
  {
    if m < |p| {
      assert IsPiece(p, line, cut, m);
      CutGrows(p, line, i, j, cut, m + 1);
    }
  }

  lemma DescribesSome(p: seq<Elem>, line: string, i: nat, j: nat)
    requires p != []
    ensures Describes(p, line, i, j) <==> exists m: nat :: Via(p, line, i, m, j)
  {
    var e, q := p[0], p[1..];
    assert p == [e] + q;
    DescribesConcat([e], q, line, i, j);
    if m: nat :| MeetAt([e], q, line, i, m, j) {
      DescribesOne(e, line, i, m);
      MatchIsOrdered(q, line, m, j);
      assert Via(p, line, i, m, j);
    }
    if m: nat :| Via(p, line, i, m, j) {
      DescribesOne(e, line, i, m);
      assert MeetAt([e], q, line, i, m, j);
    }
  }

  lemma MatchIsOrdered(p: seq<Elem>, line: string, i: nat, j: nat)
    requires Describes(p, line, i, j)
    ensures i <= j <= |line|
  {
    var cut :| IsCut(p, line, i, j, cut);
    CutGrows(p, line, i, j, cut, 0);
  }

  /** Two parts of a pattern meet at some position. */
  ghost predicate MeetAt(p: seq<Elem>, q: seq<Elem>, line: string, i: nat, m: nat, j: nat) {
    Describes(p, line, i, m) && Describes(q, line, m, j)
  }

  lemma SplitCut(p: seq<Elem>, q: seq<Elem>, line: string, i: nat, j: nat, cut: seq<nat>)
    requires IsCut(p + q, line, i, j, cut)
    ensures MeetAt(p, q, line, i, cut[|p|], j)
  {
    var a, b := cut[..|p| + 1], cut[|p|..];
    CutGrows(p + q, line, i, j, cut, |p|);
    forall k | 0 <= k < |p| ensures IsPiece(p, line, a, k) {
      assert IsPiece(p + q, line, cut, k);
    }
    forall k | 0 <= k < |q| ensures IsPiece(q, line, b, k) {
      assert IsPiece(p + q, line, cut, |p| + k);
    }
    assert IsCut(p, line, i, cut[|p|], a);
    assert IsCut(q, line, cut[|p|], j, b);
  }

  lemma JoinCuts(p: seq<Elem>, q: seq<Elem>, line: string, i: nat, m: nat, j: nat, a: seq<nat>, b: seq<nat>)
    requires IsCut(p, line, i, m, a) && IsCut(q, line, m, j, b)
    ensures IsCut(p + q, line, i, j, a + b[1..])
  {
    var cut := a + b[1..];
    forall k | 0 <= k < |p + q| ensures IsPiece(p + q, line, cut, k) {
      if k < |p| {
        assert IsPiece(p, line, a, k);
      } else {
        assert IsPiece(q, line, b, k - |p|);
        assert cut[k] == b[k - |p|];
      }
    }
  }

  lemma DescribesConcat(p: seq<Elem>, q: seq<Elem>, line: string, i: nat, j: nat)
    ensures Describes(p + q, line, i, j) <==> exists m: nat :: MeetAt(p, q, line, i, m, j)
  {
    if Describes(p + q, line, i, j) {
      var cut :| IsCut(p + q, line, i, j, cut);
      SplitCut(p, q, line, i, j, cut);
    }
    if m: nat :| MeetAt(p, q, line, i, m, j) {
      var a :| IsCut(p, line, i, m, a);
      var b :| IsCut(q, line, m, j, b);
      JoinCuts(p, q, line, i, m, j, a, b);
    }
  }

  /** A single element. */
  lemma DescribesOne(e: Elem, line: string, i: nat, j: nat)
    ensures Describes([e], line, i, j) <==> i <= j <= |line| && Fits(e, line, i, j)
  {
    if i <= j <= |line| && Fits(e, line, i, j) { assert IsCut([e], line, i, j, [i, j]); }
    if cut :| IsCut([e], line, i, j, cut) { assert IsPiece([e], line, cut, 0); }
  }

  // ---- what the matcher's branches rely on ------------------------------------------------------

  /** Where an element that leaves no choice must end, if it fits at all. */
  ghost predicate Forced(e: Elem, line: string, i: nat, m: nat) {
    i <= m <= |line| && Fits(e, line, i, m) && forall b :: i <= b <= |line| && Fits(e, line, i, b) ==> b == m
  }

  lemma ForcedStep(p: seq<Elem>, line: string, i: nat, m: nat)
    requires p != [] && Forced(p[0], line, i, m)
    ensures Describes(p, line, i, |line|) <==> Describes(p[1..], line, m, |line|)
  {
    DescribesSome(p, line, i, |line|);
    if Describes(p[1..], line, m, |line|) { assert Via(p, line, i, m, |line|); }
  }

  lemma NoFitNoMatch(p: seq<Elem>, line: string, i: nat)
    requires p != [] && forall b :: i <= b <= |line| ==> !Fits(p[0], line, i, b)
    ensures !Describes(p, line, i, |line|)
  {
    DescribesSome(p, line, i, |line|);
  }

  lemma LiteralForced(text: string, line: string, i: nat)
    requires i <= |line|
    ensures i + |text| <= |line| && line[i..i + |text|] == text ==> Forced(LiteralString(text), line, i, i + |text|)
    ensures !(i + |text| <= |line| && line[i..i + |text|] == text) ==>
              forall b :: i <= b <= |line| ==> !Fits(LiteralString(text), line, i, b)
  {
    forall b | i <= b <= |line| && Fits(LiteralString(text), line, i, b) ensures b == i + |text| {
      assert |line[i..b]| == |text|;
    }
  }

  lemma RunForced(line: string, i: nat, m: nat, lo: int, up: int)
    requires m <= |line| && DigitRun(line, i, m)
    ensures Between(Value(line[i..m]), lo, up) ==> Forced(NumRange(lo, up), line, i, m)
    ensures !Between(Value(line[i..m]), lo, up) ==> forall b :: i <= b <= |line| ==> !Fits(NumRange(lo, up), line, i, b)
  {
    forall b | i <= b <= |line| && DigitRun(line, i, b) ensures b == m {}
  }

  /** A sequence element either stops here or takes one more character. */
  lemma SequenceStep(p: seq<Elem>, line: string, i: nat)
    requires p != [] && (p[0].AnySeq? || p[0].CommonSeq?) && i <= |line|
    ensures Describes(p[1..], line, i, |line|) ==> Describes(p, line, i, |line|)
    ensures i == |line| ==> (Describes(p, line, i, |line|) ==> Describes(p[1..], line, i, |line|))
    ensures i < |line| && p[0].CommonSeq? && line[i] == '.' ==>
              (Describes(p, line, i, |line|) ==> Describes(p[1..], line, i, |line|))
    ensures i < |line| && (p[0].CommonSeq? ==> line[i] != '.') ==>
              (Describes(p, line, i, |line|) <==>
                 Describes(p[1..], line, i, |line|) || Describes(p, line, i + 1, |line|))
  {
    DescribesSome(p, line, i, |line|);
    if Describes(p[1..], line, i, |line|) { assert Via(p, line, i, i, |line|); }
    if i < |line| {
      var next := i + 1;
      DescribesSome(p, line, next, |line|);
      if m: nat :| Via(p, line, i, m, |line|) {
        if m > i && (p[0].CommonSeq? ==> line[i] != '.') { assert Via(p, line, next, m, |line|); }
      }
      if m: nat :| Via(p, line, next, m, |line|) {
        if p[0].CommonSeq? ==> line[i] != '.' { assert Via(p, line, i, m, |line|); }
      }
    }
  }

  // ---- the shortcuts ------------------------------------------------------------------------------

  lemma EndsInAnySeq(line: string, i: nat)
    requires i <= |line|
    ensures Describes([AnySeq], line, i, |line|)
  {
    DescribesOne(AnySeq, line, i, |line|);
  }

  predicate EndsWith(s: string, text: string) {
    |text| <= |s| && s[|s| - |text|..] == text
  }

  lemma EndsInLiteral(text: string, line: string, i: nat)
    requires i <= |line|
    ensures Describes([AnySeq, LiteralString(text)], line, i, |line|) <==> EndsWith(line[i..], text)
  {
    var p := [AnySeq, LiteralString(text)];
    DescribesSome(p, line, i, |line|);
    assert p[1..] == [LiteralString(text)];
    forall m | i <= m <= |line| ensures Via(p, line, i, m, |line|) <==> line[m..] == text {
      DescribesOne(LiteralString(text), line, m, |line|);
      assert line[m..|line|] == line[m..];
    }
    if EndsWith(line[i..], text) {
      var m := |line| - |text|;
      assert line[m..] == line[i..][m - i..];
      assert Via(p, line, i, m, |line|);
    }
    if m: nat :| Via(p, line, i, m, |line|) {
      assert line[i..][m - i..] == line[m..];
    }
  }

  /** A pattern whose last element is a literal only matches lines that end in it. */
  lemma LastLiteral(p: seq<Elem>, text: string, line: string)
    ensures Matches(p + [LiteralString(text)], line) ==> EndsWith(line, text)
  {
    DescribesConcat(p, [LiteralString(text)], line, 0, |line|);
    if m: nat :| MeetAt(p, [LiteralString(text)], line, 0, m, |line|) {
      DescribesOne(LiteralString(text), line, m, |line|);
      assert line[m..|line|] == line[m..];
    }
  }

  // ---- substring mode -------------------------------------------------------------------------------

  /** "**" at both ends, unless already there. */
  function WithStars(p: seq<Elem>): (r: seq<Elem>)
    ensures r != [] && r[0] == AnySeq && r[|r| - 1] == AnySeq
  {
    var q := if p == [] || p[|p| - 1] != AnySeq then p + [AnySeq] else p;
    if q[0] != AnySeq then [AnySeq] + q else q
  }

  ghost predicate Somewhere(p: seq<Elem>, line: string) {
    exists i: nat, j: nat :: i <= j <= |line| && Describes(p, line, i, j)
  }

  lemma StarAfter(p: seq<Elem>, line: string)
    ensures Somewhere(p + [AnySeq], line) <==> Somewhere(p, line)
  {
    if i: nat, j: nat :| i <= j <= |line| && Describes(p + [AnySeq], line, i, j) {
      DescribesConcat(p, [AnySeq], line, i, j);
      var m: nat :| MeetAt(p, [AnySeq], line, i, m, j);
      MatchIsOrdered(p, line, i, m);
    }
    if i: nat, j: nat :| i <= j <= |line| && Describes(p, line, i, j) {
      DescribesOne(AnySeq, line, j, j);
      DescribesConcat(p, [AnySeq], line, i, j);
      assert MeetAt(p, [AnySeq], line, i, j, j);
    }
  }

  lemma StarBefore(p: seq<Elem>, line: string)
    ensures Somewhere([AnySeq] + p, line) <==> Somewhere(p, line)
  {
    if i: nat, j: nat :| i <= j <= |line| && Describes([AnySeq] + p, line, i, j) {
      DescribesConcat([AnySeq], p, line, i, j);
      var m: nat :| MeetAt([AnySeq], p, line, i, m, j);
      MatchIsOrdered(p, line, m, j);
    }
    if i: nat, j: nat :| i <= j <= |line| && Describes(p, line, i, j) {
      DescribesOne(AnySeq, line, i, i);
      DescribesConcat([AnySeq], p, line, i, j);
      assert MeetAt([AnySeq], p, line, i, i, j);
    }
  }

  /** With "**" first and last, matching somewhere is matching the whole line. */
  lemma StarredAnywhere(p: seq<Elem>, line: string)
    requires p != [] && p[0] == AnySeq && p[|p| - 1] == AnySeq
    ensures Somewhere(p, line) <==> Matches(p, line)
  {
    if i: nat, j: nat :| i <= j <= |line| && Describes(p, line, i, j) {
      var cut :| IsCut(p, line, i, j, cut);
      var n := |p|;
      var wide := cut[0 := 0][n := |line|];
      forall k | 0 <= k < n ensures IsPiece(p, line, wide, k) {
        CutGrows(p, line, i, j, cut, k);
        assert IsPiece(p, line, cut, k);
      }
      assert IsCut(p, line, 0, |line|, wide);
    }
  }

  /** Substring mode: the starred pattern matches the line exactly when the pattern itself
      describes a part of the line. */
  lemma SubstringMode(p: seq<Elem>, line: string)
    ensures Matches(WithStars(p), line) <==> Somewhere(p, line)
  {
    StarredAnywhere(WithStars(p), line);
    var q := if p == [] || p[|p| - 1] != AnySeq then p + [AnySeq] else p;
    StarAfter(p, line);
    StarBefore(q, line);
  }

  // ---- matching somewhere and matching a part ---------------------------------------------------------

  ghost predicate NoEnd(p: seq<Elem>) {
    forall k :: 0 <= k < |p| ==> !p[k].End?
  }

  /** An element that always takes a character. */
  predicate Solid(e: Elem) {
    !e.AnySeq? && !e.CommonSeq? && !e.End? && e != LiteralString("")
  }

  ghost predicate Loose(p: seq<Elem>) {
    forall k :: 0 <= k < |p| ==> !Solid(p[k])
  }

  /** The last solid element is a numeric range. */
  ghost predicate EndsInRange(p: seq<Elem>) {
    p != [] && if Loose(p[1..]) then p[0].NumRange? else EndsInRange(p[1..])
  }

  /** No digit follows position j. */
  ghost predicate CleanEnd(line: string, j: nat)
    requires j <= |line|
  {
    j == |line| || !IsDigit(line[j])
  }

  /** A piece inside line[i..j], seen in the line and seen in the part alone. */
  lemma FitsInPart(e: Elem, line: string, i: nat, j: nat, a: nat, b: nat)
    requires i <= a <= b <= j <= |line| && !e.End?
    ensures Fits(e, line, a, b) ==> Fits(e, line[i..j], a - i, b - i)
    ensures !e.NumRange? || b < j || CleanEnd(line, j) ==> (Fits(e, line[i..j], a - i, b - i) ==> Fits(e, line, a, b))
  {
    var part := line[i..j];
    SliceOfSlice(line, i, j, a, b);
    match e
    case CommonSeq =>
      if Fits(e, part, a - i, b - i) {
        forall k | a <= k < b ensures line[k] != '.' { assert part[k - i] == line[k]; }
      }
    case NumRange(_, _) => RunInPart(line, i, j, a, b);
    case _ =>
  }

  lemma SliceOfSlice(line: string, i: nat, j: nat, a: nat, b: nat)
    requires i <= a <= b <= j <= |line|
    ensures line[i..j][a - i..b - i] == line[a..b]
  {
    var s, t := line[i..j][a - i..b - i], line[a..b];
    assert |s| == |t|;
    forall k | 0 <= k < |s| ensures s[k] == t[k] { assert s[k] == line[i..j][a - i + k] == line[a + k]; }
  }

  lemma RunInPart(line: string, i: nat, j: nat, a: nat, b: nat)
    requires i <= a <= b <= j <= |line|
    ensures DigitRun(line, a, b) ==> DigitRun(line[i..j], a - i, b - i)
    ensures (b < j || CleanEnd(line, j)) && DigitRun(line[i..j], a - i, b - i) ==> DigitRun(line, a, b)
  {
    var part := line[i..j];
    if DigitRun(part, a - i, b - i) {
      assert b < j ==> part[b - i] == line[b];
      forall k | a <= k < b ensures IsDigit(line[k]) { assert part[k - i] == line[k]; }
    }
  }

  lemma IntoPart(p: seq<Elem>, line: string, i: nat, j: nat, a: nat)
    requires NoEnd(p) && i <= a <= j <= |line| && Describes(p, line, a, j)
    ensures Describes(p, line[i..j], a - i, j - i)
  {
    IntoPartOf(p, line, line[i..j], i, j, a);
  }

  lemma {:induction false} IntoPartOf(p: seq<Elem>, line: string, part: string, i: nat, j: nat, a: nat)
    requires NoEnd(p) && i <= a <= j <= |line| && Describes(p, line, a, j) && part == line[i..j]
    ensures Describes(p, part, a - i, j - i)
    decreases |p|
  {
    if p == [] {
      DescribesNone(line, a, j);
      DescribesNone(part, a - i, j - i);
    } else {
      DescribesSome(p, line, a, j);
      var m: nat :| Via(p, line, a, m, j);
      PieceInPart(p[0], line, part, i, j, a, m);
      IntoPartOf(p[1..], line, part, i, j, m);
      ViaDescribes(p, part, a - i, m - i, j - i);
    }
  }

  lemma PieceInPart(e: Elem, line: string, part: string, i: nat, j: nat, a: nat, b: nat)
    requires i <= a <= b <= j <= |line| && !e.End? && part == line[i..j] && Fits(e, line, a, b)
    ensures Fits(e, part, a - i, b - i)
  {
    FitsInPart(e, line, i, j, a, b);
  }

  lemma ViaDescribes(p: seq<Elem>, line: string, i: nat, m: nat, j: nat)
    requires p != [] && Via(p, line, i, m, j)
    ensures Describes(p, line, i, j)
  {
    DescribesSome(p, line, i, j);
  }

  /** What is not loose takes a character. */
  lemma {:induction false} SolidTakes(p: seq<Elem>, line: string, i: nat, j: nat)
    requires NoEnd(p) && !Loose(p) && Describes(p, line, i, j)
    ensures i < j
    decreases |p|
  {
    DescribesSome(p, line, i, j);
    var m: nat :| Via(p, line, i, m, j);
    if !Solid(p[0]) {
      if Loose(p[1..]) {
        forall k | 0 <= k < |p| ensures !Solid(p[k]) { assert k > 0 ==> p[k] == p[1..][k - 1]; }
      }
      SolidTakes(p[1..], line, m, j);
    }
  }

  lemma RestEndsInNoRange(p: seq<Elem>)
    requires p != [] && !EndsInRange(p)
    ensures !EndsInRange(p[1..]) && (p[0].NumRange? ==> !Loose(p[1..]))
  {
    var q := p[1..];
    if Loose(q) && q != [] { assert !Solid(q[0]); }
  }

  lemma {:induction false} OutOfPart(p: seq<Elem>, line: string, i: nat, j: nat, a: nat)
    requires NoEnd(p) && i <= a <= j <= |line| && (!EndsInRange(p) || CleanEnd(line, j))
    requires Describes(p, line[i..j], a - i, j - i)
    ensures Describes(p, line, a, j)
    decreases |p|
  {
    var part, start, end := line[i..j], a - i, j - i;
    if p == [] {
      DescribesNone(line, a, j);
      DescribesNone(part, start, end);
    } else {
      DescribesSome(p, part, start, end);
      var m: nat :| Via(p, part, start, m, end);
      var outside: nat := m + i;
      if !EndsInRange(p) {
        RestEndsInNoRange(p);
        if p[0].NumRange? { SolidTakes(p[1..], part, m, end); }
      }
      FitsInPart(p[0], line, i, j, a, outside);
      OutOfPart(p[1..], line, i, j, outside);
      ViaDescribes(p, line, a, outside, j);
    }
  }

  /** What a pattern describes in a line it matches alone; the other way round unless a numeric
      range at its end could go on behind the part. */
  lemma PartMatches(p: seq<Elem>, line: string, i: nat, j: nat)
    requires NoEnd(p) && i <= j <= |line|
    ensures Describes(p, line, i, j) ==> Matches(p, line[i..j])
    ensures !EndsInRange(p) || CleanEnd(line, j) ==> (Describes(p, line, i, j) <==> Matches(p, line[i..j]))
  {
    if Describes(p, line, i, j) { IntoPart(p, line, i, j, i); }
    if Matches(p, line[i..j]) && (!EndsInRange(p) || CleanEnd(line, j)) { OutOfPart(p, line, i, j, i); }
  }

  ghost predicate SomePartMatches(p: seq<Elem>, line: string) {
    exists i: nat, j: nat :: i <= j <= |line| && Matches(p, line[i..j])
  }

  /** A loose pattern describes the empty piece. */
  lemma {:induction false} LooseIsEmpty(p: seq<Elem>, line: string, i: nat)
    requires NoEnd(p) && Loose(p) && i <= |line|
    ensures Describes(p, line, i, i)
    decreases |p|
  {
    if p == [] {
      DescribesNone(line, i, i);
    } else {
      assert !Solid(p[0]);
      LooseIsEmpty(p[1..], line, i);
      assert Via(p, line, i, i, i);
      DescribesSome(p, line, i, i);
    }
  }

  /** A pattern that ends in a range also describes the line up to where that range stops. */
  lemma {:induction false} RangeStops(p: seq<Elem>, line: string, i: nat, j: nat) returns (k: nat)
    requires NoEnd(p) && EndsInRange(p) && Describes(p, line, i, j)
    ensures k <= j <= |line| && CleanEnd(line, k) && Describes(p, line, i, k)
    decreases |p|
  {
    DescribesSome(p, line, i, j);
    var m: nat :| Via(p, line, i, m, j);
    if Loose(p[1..]) {
      k := m;
      LooseIsEmpty(p[1..], line, m);
    } else {
      k := RangeStops(p[1..], line, m, j);
      MatchIsOrdered(p[1..], line, m, k);
    }
    assert Via(p, line, i, m, k);
    DescribesSome(p, line, i, k);
  }

  lemma {:induction false} ShortestMatch(p: seq<Elem>, w: string) returns (s: string)
    requires Matches(p, w)
    ensures Matches(p, s) && forall t :: Matches(p, t) ==> |s| <= |t|
    decreases |w|
  {
    s := w;
    if t :| Matches(p, t) && |t| < |w| { s := ShortestMatch(p, t); }
  }

  /** A digit behind the shortest match of a pattern that ends in a range. */
  lemma DigitBehind(p: seq<Elem>, w: string, line: string)
    requires NoEnd(p) && EndsInRange(p) && Matches(p, w) && forall t :: Matches(p, t) ==> |w| <= |t|
    requires line == w + "0"
    ensures line[0..|w|] == w && !Describes(p, line, 0, |w|)
  {
    if Describes(p, line, 0, |w|) {
      var k := RangeStops(p, line, 0, |w|);
      IntoPart(p, line, 0, k, 0);
      assert Matches(p, line[0..k]);
      assert false;
    }
  }

  /** Matching a part and describing it are the same in every line exactly when the pattern does
      not end in a numeric range, or matches nothing. */
  lemma PartsMatchWhen(p: seq<Elem>)
    requires NoEnd(p)
    ensures (forall line: string, i: nat, j: nat ::
               i <= j <= |line| && Matches(p, line[i..j]) ==> Describes(p, line, i, j))
            <==> !EndsInRange(p) || forall w :: !Matches(p, w)
  {
    if !EndsInRange(p) {
      forall line: string, i: nat, j: nat | i <= j <= |line| && Matches(p, line[i..j])
        ensures Describes(p, line, i, j)
      {
        PartMatches(p, line, i, j);
      }
    } else if w :| Matches(p, w) {
      var s := ShortestMatch(p, w);
      DigitBehind(p, s, s + "0");
    }
  }

  /** Substring mode finds a pattern only where a part of the line matches it, and unless the
      pattern ends in a numeric range exactly there. */
  lemma SomewhereIsSomePart(p: seq<Elem>, line: string)
    requires NoEnd(p)
    ensures Somewhere(p, line) ==> SomePartMatches(p, line)
    ensures !EndsInRange(p) ==> (Somewhere(p, line) <==> SomePartMatches(p, line))
  {
    if i: nat, j: nat :| i <= j <= |line| && Describes(p, line, i, j) { PartMatches(p, line, i, j); }
    if i: nat, j: nat :| i <= j <= |line| && Matches(p, line[i..j]) { PartMatches(p, line, i, j); }
  }

  /** A numeric range alone is found exactly where a digit run that ends cleanly has its value. */
  lemma RangeSomewhere(lo: int, up: int, line: string)
    ensures Somewhere([NumRange(lo, up)], line) <==>
            exists i: nat, j: nat :: i <= j <= |line| && CleanEnd(line, j) && Matches([NumRange(lo, up)], line[i..j])
  {
    var p := [NumRange(lo, up)];
    if i: nat, j: nat :| i <= j <= |line| && Describes(p, line, i, j) {
      DescribesOne(p[0], line, i, j);
      PartMatches(p, line, i, j);
      assert CleanEnd(line, j) && Matches(p, line[i..j]);
    }
    if i: nat, j: nat :| i <= j <= |line| && CleanEnd(line, j) && Matches(p, line[i..j]) { PartMatches(p, line, i, j); }
  }

  /** Digit runs are maximal in the line, not in the part: "12" has the part "1", which
      {1..1} describes as a line of its own, but {1..1} matches nowhere in "12". */
  lemma NumbersDoNotMatchInParts()
    ensures Matches([NumRange(1, 1)], "1") && !Somewhere([NumRange(1, 1)], "12")
  {
    assert Value("") == 0;
    assert "1"[..0] == "" && Value("1") == 1;
    assert "1"[0..1] == "1";
    DescribesOne(NumRange(1, 1), "1", 0, 1);
    assert "2"[..0] == "" && Value("2") == 2;
    assert "12"[..1] == "1" && Value("12") == 12;
    assert "12"[0..2] == "12" && "12"[1..2] == "2";
    forall i: nat, j: nat | i <= j <= 2 ensures !Describes([NumRange(1, 1)], "12", i, j) {
      DescribesOne(NumRange(1, 1), "12", i, j);
    }
  }
}
