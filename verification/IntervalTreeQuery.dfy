/**
 What IntervalTree::query returns. `Hits` is the plain answer, every overlapping entry in
 pre-order. `Pruned` is the answer of the source's search, which enters a right subtree
 after a left one only when the left one produced a hit. `Pending` is what the explicit
 stack still has to deliver.
 */
module IntervalTreeQuery {
  import opened IntervalTreeModel

  /** The overlap test of lines 463-471, with its own case split. */
  predicate Overlap(a1: Time, a2: Time, b1: Time, b2: Time) {
    if a1 <= b1 then b1 <= a2 else a1 <= b2
  }

  predicate Within(p: Time, a1: Time, a2: Time) {
    a1 <= p <= a2
  }

  lemma OverlapIsSharedPoint(a1: Time, a2: Time, b1: Time, b2: Time)
    requires a1 <= a2 && b1 <= b2
    ensures Overlap(a1, a2, b1, b2) <==> exists p: Time :: Within(p, a1, a2) && Within(p, b1, b2)
  {
    if Overlap(a1, a2, b1, b2) {
      var p := Max(a1, b1);
      assert Within(p, a1, a2) && Within(p, b1, b2);
    }
  }

  function Own(d: Data, lo: Time, hi: Time): seq<Interval> {
    if Overlap(lo, hi, d.iv.low, d.iv.high) then [d.iv] else []
  }

  /** Every stored interval that overlaps [lo, hi], parents before children. */
  function Hits(t: Tree, lo: Time, hi: Time): seq<Interval> {
    if t.Leaf? then [] else Own(t.d, lo, hi) + Hits(t.l, lo, hi) + Hits(t.r, lo, hi)
  }

  /** The search of lines 473-514. */
  function Pruned(t: Tree, lo: Time, hi: Time): seq<Interval> {
    if t.Leaf? then []
    else if Mh(t.l) >= lo then
      var found := Pruned(t.l, lo, hi);
      Own(t.d, lo, hi) + found + (if found != [] then Pruned(t.r, lo, hi) else [])
    else Own(t.d, lo, hi) + Pruned(t.r, lo, hi)
  }

  /** How often an interval is stored. */
  ghost function Count(s: seq<Item>, iv: Interval): nat {
    if s == [] then 0 else (if s[0].iv == iv then 1 else 0) + Count(s[1..], iv)
  }

  lemma {:induction false} CountAppend(a: seq<Item>, b: seq<Item>, iv: Interval)
    ensures Count(a + b, iv) == Count(a, iv) + Count(b, iv)
  {
    if a == [] {
      assert a + b == b;
    } else {
      assert (a + b)[1..] == a[1..] + b;
      CountAppend(a[1..], b, iv);
    }
  }

  /** Hits is exactly the overlapping part of the stored bag, each occurrence once. */
  lemma {:induction false} HitsAreTheOverlaps(t: Tree, lo: Time, hi: Time, iv: Interval)
    ensures multiset(Hits(t, lo, hi))[iv] == if Overlap(lo, hi, iv.low, iv.high) then Count(InOrder(t), iv) else 0
  {
    if t.Br? {
      HitsAreTheOverlaps(t.l, lo, hi, iv);
      HitsAreTheOverlaps(t.r, lo, hi, iv);
      var a, m, b := InOrder(t.l), [Item(t.n, t.d.iv)], InOrder(t.r);
      CountAppend(a + m, b, iv);
      CountAppend(a, m, iv);
      assert m[1..] == [];
    }
  }

  /** Endpoints in the right order, as the interval's definition [low, high] demands. */
  ghost predicate WellFormed(t: Tree) {
    t.Br? ==> t.d.iv.low <= t.d.iv.high && WellFormed(t.l) && WellFormed(t.r)
  }

  /** The same, said of the row of stored entries. */
  ghost predicate Proper(row: seq<Item>) {
    forall i :: i in row ==> i.iv.low <= i.iv.high
  }

  lemma {:induction false} WellFormedRow(t: Tree)
    ensures WellFormed(t) <==> Proper(InOrder(t))
  {
    if t.Br? {
      WellFormedRow(t.l);
      WellFormedRow(t.r);
      assert InOrder(t) == InOrder(t.l) + [Item(t.n, t.d.iv)] + InOrder(t.r);
      assert forall i :: i in InOrder(t) <==> i in InOrder(t.l) || i == Item(t.n, t.d.iv) || i in InOrder(t.r);
      assert Item(t.n, t.d.iv) in InOrder(t);
    }
  }

  /** The stored intervals in order. */
  ghost function Intervals(row: seq<Item>): (s: seq<Interval>) {
    if row == [] then [] else [row[0].iv] + Intervals(row[1..])
  }

  /** The stored intervals, each as often as it is stored. */
  ghost function Bag(row: seq<Item>): (b: multiset<Interval>) {
    multiset(Intervals(row))
  }

  lemma {:induction false} BagCount(row: seq<Item>, iv: Interval)
    ensures Bag(row)[iv] == Count(row, iv)
  {
    if row != [] { BagCount(row[1..], iv); }
  }

  lemma {:induction false} IntervalsAppend(a: seq<Item>, b: seq<Item>)
    ensures Intervals(a + b) == Intervals(a) + Intervals(b)
  {
    if a == [] {
      assert a + b == b;
    } else {
      IntervalsAppend(a[1..], b);
      assert (a + b)[1..] == a[1..] + b;
    }
  }

  lemma BagWith(a: seq<Item>, x: Item, b: seq<Item>)
    ensures Bag(a + [x] + b) == Bag(a + b) + multiset{x.iv}
  {
    IntervalsAppend(a + [x], b);
    IntervalsAppend(a, [x]);
    IntervalsAppend(a, b);
    assert Intervals([x][1..]) == [];
    assert Intervals([x]) == [x.iv];
  }

  /** Exactly the overlapping intervals of a bag, each as often as it is in it. */
  ghost predicate Answers(result: seq<Interval>, bag: multiset<Interval>, lo: Time, hi: Time) {
    forall iv :: multiset(result)[iv] == if Overlap(lo, hi, iv.low, iv.high) then bag[iv] else 0
  }

  lemma HitsAnswer(t: Tree, lo: Time, hi: Time)
    ensures Answers(Hits(t, lo, hi), Bag(InOrder(t)), lo, hi)
  {
    forall iv
      ensures multiset(Hits(t, lo, hi))[iv] == if Overlap(lo, hi, iv.low, iv.high) then Bag(InOrder(t))[iv] else 0
    {
      HitsAreTheOverlaps(t, lo, hi, iv);
      BagCount(InOrder(t), iv);
    }
  }

  lemma {:induction false} LowMaxMeansNoHits(t: Tree, lo: Time, hi: Time)
    requires MaxOk(t) && WellFormed(t) && Mh(t) < lo
    ensures Hits(t, lo, hi) == []
  {
    if t.Br? {
      LowMaxMeansNoHits(t.l, lo, hi);
      LowMaxMeansNoHits(t.r, lo, hi);
    }
  }

  lemma {:induction false} KeysAboveMeanNoHits(t: Tree, lo: Time, hi: Time)
    requires lo <= hi
    requires forall x :: x in InOrder(t) ==> hi < x.iv.low
    ensures Hits(t, lo, hi) == []
  {
    if t.Br? {
      assert Item(t.n, t.d.iv) in InOrder(t);
      KeysAboveMeanNoHits(t.l, lo, hi);
      KeysAboveMeanNoHits(t.r, lo, hi);
    }
  }

  /** A subtree without hits whose maximum reaches lo has an entry that starts after hi. */
  lemma {:induction false} SilentSubtreeStartsLate(t: Tree, lo: Time, hi: Time) returns (x: Item)
    requires lo <= hi && -MAX_TIME < lo <= Mh(t) && MaxOk(t) && Hits(t, lo, hi) == []
    ensures x in InOrder(t) && hi < x.iv.low
  {
    assert Own(t.d, lo, hi) == [] && Hits(t.l, lo, hi) == [] && Hits(t.r, lo, hi) == [];
    if t.d.iv.high >= lo {
      x := Item(t.n, t.d.iv);
    } else if Mh(t.l) >= lo {
      x := SilentSubtreeStartsLate(t.l, lo, hi);
    } else {
      x := SilentSubtreeStartsLate(t.r, lo, hi);
    }
  }

  lemma SortedParts(a: seq<Item>, m: Item, b: seq<Item>)
    requires Sorted(a + [m] + b)
    ensures Sorted(a) && Sorted(b)
    ensures forall x, y :: x in a && y in b ==> x.iv.low <= y.iv.low
  {
    var s := a + [m] + b;
    forall i, j | 0 <= i < j < |a| ensures a[i].iv.low <= a[j].iv.low {
      assert s[i] == a[i] && s[j] == a[j];
    }
    forall i, j | 0 <= i < j < |b| ensures b[i].iv.low <= b[j].iv.low {
      assert s[|a| + 1 + i] == b[i] && s[|a| + 1 + j] == b[j];
    }
    forall x, y | x in a && y in b ensures x.iv.low <= y.iv.low {
      var i :| 0 <= i < |a| && a[i] == x;
      var j :| 0 <= j < |b| && b[j] == y;
      assert s[i] == x && s[|a| + 1 + j] == y;
    }
  }

  /** Pruning loses nothing when the query starts after the sentinel time. */
  lemma {:induction false} PrunedIsComplete(t: Tree, lo: Time, hi: Time)
    requires -MAX_TIME < lo <= hi
    requires MaxOk(t) && Sorted(InOrder(t)) && WellFormed(t)
    ensures Pruned(t, lo, hi) == Hits(t, lo, hi)
  {
    if t.Br? {
      SortedParts(InOrder(t.l), Item(t.n, t.d.iv), InOrder(t.r));
      PrunedIsComplete(t.l, lo, hi);
      PrunedIsComplete(t.r, lo, hi);
      if Mh(t.l) < lo {
        LowMaxMeansNoHits(t.l, lo, hi);
      } else if Pruned(t.l, lo, hi) == [] {
        var x := SilentSubtreeStartsLate(t.l, lo, hi);
        assert forall y :: y in InOrder(t.r) ==> x.iv.low <= y.iv.low;
        KeysAboveMeanNoHits(t.r, lo, hi);
      }
    }
  }

  /** Two intervals at the very start of time, the second as right child of the first. */
  function EarliestPair(a: Ptr, b: Ptr, iv: Interval, iv': Interval): Tree {
    Br(Leaf, a, Data(iv, false, iv.high), Br(Leaf, b, Data(iv', true, iv'.high), Leaf))
  }

  /** A query from -MAX_TIME drops the right child: nil's max_high reaches it. */
  lemma EarliestQueryLosesHits(a: Ptr, b: Ptr, iv: Interval, iv': Interval, hi: Time)
    requires iv.low == iv.high == iv'.low == iv'.high == -MAX_TIME && iv.id != iv'.id
    ensures var t := EarliestPair(a, b, iv, iv');
            && TreeOk(t) && WellFormed(t)
            && Hits(t, -MAX_TIME, hi) == [iv, iv'] && Pruned(t, -MAX_TIME, hi) == [iv]
  {
    var t := EarliestPair(a, b, iv, iv');
    assert InOrder(t.r) == [Item(b, iv')];
    assert InOrder(t) == [Item(a, iv), Item(b, iv')];
    assert Hits(t.r, -MAX_TIME, hi) == [iv'];
  }

  /** The search answers every query from lo to hi correctly, whatever the tree, exactly
      when lo lies after -MAX_TIME. */
  lemma QueryCompleteIff(lo: Time, hi: Time)
    requires lo <= hi
    ensures (forall t :: TreeOk(t) && WellFormed(t) ==> Pruned(t, lo, hi) == Hits(t, lo, hi)) <==> -MAX_TIME < lo
  {
    if -MAX_TIME < lo {
      forall t | TreeOk(t) && WellFormed(t) ensures Pruned(t, lo, hi) == Hits(t, lo, hi) {
        PrunedIsComplete(t, lo, hi);
      }
    } else {
      var iv, iv' := Interval(0, -MAX_TIME, -MAX_TIME), Interval(1, -MAX_TIME, -MAX_TIME);
      EarliestQueryLosesHits(2, 3, iv, iv', hi);
      assert [iv, iv'] != [iv];
    }
  }

  // ---- the explicit stack -----------------------------------------------------------

  /** What the stacked nodes still deliver: each right subtree whose left one had a hit. */
  ghost function Pending(bs: seq<Tree>, fs: seq<bool>, lo: Time, hi: Time): seq<Interval>
    requires |bs| == |fs| && forall b :: b in bs ==> b.Br?
  {
    if bs == [] then []
    else
      var k := |bs| - 1;
      if fs[k] then Pruned(bs[k].r, lo, hi) + Pending(bs[..k], Raise(fs[..k], true), lo, hi)
      else Pending(bs[..k], fs[..k], lo, hi)
  }

  /** Setting the innermost enclosing flag when a hit was found. */
  ghost function Raise(fs: seq<bool>, hit: bool): (r: seq<bool>)
    ensures |r| == |fs|
  {
    if fs == [] then [] else fs[|fs| - 1 := fs[|fs| - 1] || hit]
  }

  /** What the loop still delivers from a focus and its stack. */
  ghost function Remaining(t: Tree, bs: seq<Tree>, fs: seq<bool>, lo: Time, hi: Time): seq<Interval>
    requires |bs| == |fs| && forall b :: b in bs ==> b.Br?
  {
    Pruned(t, lo, hi) + Pending(bs, Raise(fs, Pruned(t, lo, hi) != []), lo, hi)
  }

  lemma EmptyStack(t: Tree, lo: Time, hi: Time)
    ensures Remaining(t, [], [], lo, hi) == Pruned(t, lo, hi)
  {}

  lemma PendingPush(bs: seq<Tree>, fs: seq<bool>, t: Tree, f: bool, lo: Time, hi: Time)
    requires |bs| == |fs| && (forall b :: b in bs ==> b.Br?) && t.Br?
    ensures Pending(bs + [t], fs + [f], lo, hi) ==
            if f then Pruned(t.r, lo, hi) + Pending(bs, Raise(fs, true), lo, hi) else Pending(bs, fs, lo, hi)
  {
    assert (bs + [t])[..|bs|] == bs && (fs + [f])[..|bs|] == fs;
  }

  lemma RegroupFour(a: seq<Interval>, b: seq<Interval>, c: seq<Interval>, d: seq<Interval>)
    ensures a + b + c + d == a + (b + (c + d))
  {}

  lemma VisitLeft(t: Tree, bs: seq<Tree>, fs: seq<bool>, lo: Time, hi: Time)
    requires |bs| == |fs| && (forall b :: b in bs ==> b.Br?) && t.Br? && Mh(t.l) >= lo
    ensures Remaining(t, bs, fs, lo, hi) ==
            Own(t.d, lo, hi) + Remaining(t.l, bs + [t], Raise(fs, Own(t.d, lo, hi) != []) + [false], lo, hi)
  {
    var own, found := Own(t.d, lo, hi), Pruned(t.l, lo, hi);
    var up := Raise(fs, own != []);
    assert Raise(up + [false], found != []) == up + [found != []];
    PendingPush(bs, up, t, found != [], lo, hi);
    if found != [] {
      assert Raise(up, true) == Raise(fs, true);
      RegroupFour(own, found, Pruned(t.r, lo, hi), Pending(bs, Raise(fs, true), lo, hi));
    } else {
      RegroupFour(own, found, [], Pending(bs, up, lo, hi));
      assert Pruned(t, lo, hi) == own;
    }
  }

  lemma VisitRight(t: Tree, bs: seq<Tree>, fs: seq<bool>, lo: Time, hi: Time)
    requires |bs| == |fs| && (forall b :: b in bs ==> b.Br?) && t.Br? && Mh(t.l) < lo
    ensures Remaining(t, bs, fs, lo, hi) ==
            Own(t.d, lo, hi) + Remaining(t.r, bs, Raise(fs, Own(t.d, lo, hi) != []), lo, hi)
  {
    var own, found := Own(t.d, lo, hi), Pruned(t.r, lo, hi);
    assert Raise(Raise(fs, own != []), found != []) == Raise(fs, own + found != []);
  }

  /** Popping the top entry: its right subtree becomes the focus if its flag is up. */
  lemma Pop(bs: seq<Tree>, fs: seq<bool>, lo: Time, hi: Time)
    requires |bs| == |fs| > 0 && forall b :: b in bs ==> b.Br?
    ensures var k := |bs| - 1;
            Remaining(Leaf, bs, fs, lo, hi) ==
            if fs[k] then Remaining(bs[k].r, bs[..k], Raise(fs[..k], true), lo, hi)
            else Remaining(Leaf, bs[..k], fs[..k], lo, hi)
  {
    var k := |bs| - 1;
    assert Raise(fs, false) == fs;
    assert Raise(fs[..k], false) == fs[..k];
    if fs[k] {
      assert Raise(Raise(fs[..k], true), Pruned(bs[k].r, lo, hi) != []) == Raise(fs[..k], true);
    }
  }
}
