/** Whole runs of an interval tree against a plain bag of intervals. */
module IntervalTreeRuns {
  import opened IntervalTreeModel
  import opened IntervalTreeSplice
  import opened IntervalTreeQuery
  import opened IntervalTrees

  datatype Op = Insert(iv: Interval) | Delete(iv: Interval) | Query(lo: Time, hi: Time)

  /** Only intervals with their endpoints in order are stored. */
  ghost predicate ProperOps(ops: seq<Op>) {
    forall k :: 0 <= k < |ops| && ops[k].Insert? ==> ops[k].iv.low <= ops[k].iv.high
  }

  /** The bag after an operation: deletion takes one occurrence, if there is one. */
  ghost function NextBag(bag: multiset<Interval>, op: Op): (b: multiset<Interval>) {
    match op
    case Insert(iv) => bag + multiset{iv}
    case Delete(iv) => bag - multiset{iv}
    case Query(_, _) => bag
  }

  ghost function BagAfter(ops: seq<Op>): (b: multiset<Interval>) {
    if ops == [] then multiset{} else NextBag(BagAfter(ops[..|ops| - 1]), ops[|ops| - 1])
  }

  /** What an operation returns: a query that starts after the least time is answered from the bag. */
  ghost predicate Answered(bag: multiset<Interval>, op: Op, answer: seq<Interval>) {
    match op
    case Query(lo, hi) => -MAX_TIME < lo <= hi ==> Answers(answer, bag, lo, hi)
    case _ => answer == []
  }

  lemma BagNext(ops: seq<Op>, k: nat)
    requires k < |ops|
    ensures BagAfter(ops[..k + 1]) == NextBag(BagAfter(ops[..k]), ops[k])
  {
    assert ops[..k + 1][..k] == ops[..k];
  }

  /** One entry less. */
  lemma DropsBag(row: seq<Item>, row': seq<Item>, x: Item, k: nat)
    requires Drops(row, row', x, k)
    ensures Bag(row') == Bag(row) - multiset{x.iv} && (Proper(row) ==> Proper(row'))
  {
    assert row == row[..k] + [x] + row[k + 1..];
    assert row' == row[..k] + row[k + 1..];
    BagWith(row[..k], x, row[k + 1..]);
  }

  lemma {:induction false} InBag(row: seq<Item>, iv: Interval)
    ensures iv in Bag(row) <==> exists i :: i in row && i.iv == iv
  {
    if row != [] {
      InBag(row[1..], iv);
      assert Intervals(row) == [row[0].iv] + Intervals(row[1..]);
      assert row == [row[0]] + row[1..];
      if i :| i in row && i.iv == iv {
        assert i == row[0] || i in row[1..];
      }
      if i :| i in row[1..] && i.iv == iv {
        assert i in row;
      }
      assert row[0] in row;
    }
  }

  method DoInsert(tree: IntervalTree, iv: Interval, z: Ptr)
    requires tree.Valid() && z !in tree.heap && iv.low <= iv.high && Proper(InOrder(tree.tree))
    modifies tree
    ensures tree.Valid() && tree.heap.Keys == old(tree.heap.Keys) + {z} && Proper(InOrder(tree.tree))
    ensures Bag(InOrder(tree.tree)) == old(Bag(InOrder(tree.tree))) + multiset{iv}
  {
    ghost var before, after := tree.Insert(iv, z);
    BagWith(before, Item(z, iv), after);
    ghost var row, row' := before + after, before + [Item(z, iv)] + after;
    assert forall i :: i in row' ==> i in row || i == Item(z, iv);
  }

  method DoDelete(tree: IntervalTree, iv: Interval)
    requires tree.Valid() && Proper(InOrder(tree.tree))
    modifies tree
    ensures tree.Valid() && tree.heap.Keys <= old(tree.heap.Keys) && Proper(InOrder(tree.tree))
    ensures Bag(InOrder(tree.tree)) == old(Bag(InOrder(tree.tree))) - multiset{iv}
  {
    ghost var row := InOrder(tree.tree);
    InBag(row, iv);
    ghost var n, k := tree.DeleteInterval(iv);
    if exists i :: i in row && i.iv == iv { DropsBag(row, InOrder(tree.tree), Item(n, iv), k); }
  }

  /** Any operation on a tree all of whose addresses are below next. */
  method DoOne(tree: IntervalTree, op: Op, next: nat) returns (answer: seq<Interval>, next': nat)
    requires tree.Valid() && Proper(InOrder(tree.tree)) && (op.Insert? ==> op.iv.low <= op.iv.high)
    requires forall p :: p in tree.heap.Keys ==> p < next
    modifies tree
    ensures tree.Valid() && Proper(InOrder(tree.tree)) && forall p :: p in tree.heap.Keys ==> p < next'
    ensures Bag(InOrder(tree.tree)) == NextBag(old(Bag(InOrder(tree.tree))), op)
    ensures Answered(old(Bag(InOrder(tree.tree))), op, answer)
  {
    answer, next' := [], next;
    match op
    case Insert(iv) =>
      DoInsert(tree, iv, next);
      next' := next + 1;
    case Delete(iv) => DoDelete(tree, iv);
    case Query(lo, hi) => answer := tree.Query(lo, hi);
  }

  /** Each answer is that of the bag after the operations before. */
  ghost predicate AllAnswered(ops: seq<Op>, answers: seq<seq<Interval>>) {
    |answers| <= |ops| && forall k :: 0 <= k < |answers| ==> AnsweredAt(ops, k, answers[k])
  }

  ghost predicate AnsweredAt(ops: seq<Op>, k: nat, answer: seq<Interval>)
    requires k < |ops|
  {
    Answered(BagAfter(ops[..k]), ops[k], answer)
  }

  lemma AnswersPush(ops: seq<Op>, answers: seq<seq<Interval>>, answer: seq<Interval>)
    requires AllAnswered(ops, answers) && |answers| < |ops|
    requires AnsweredAt(ops, |answers|, answer)
    ensures AllAnswered(ops, answers + [answer])
  {}

  /** Any sequence of insertions, deletions and queries on a new tree: the stored intervals are the
      bag's, and every query is answered as the bag would. No record is left over. */
  method Perform(ops: seq<Op>) returns (answers: seq<seq<Interval>>, tree: IntervalTree)
    requires ProperOps(ops)
    ensures |answers| == |ops| && AllAnswered(ops, answers)
    ensures fresh(tree) && tree.Valid() && Bag(InOrder(tree.tree)) == BagAfter(ops)
  {
    tree := new IntervalTree();
    answers := [];
    var next: nat := 2;
    var k := 0;
    assert ops[..0] == [];
    while k < |ops|
      invariant 0 <= k <= |ops| && |answers| == k && fresh(tree) && tree.Valid()
      invariant Proper(InOrder(tree.tree)) && Bag(InOrder(tree.tree)) == BagAfter(ops[..k])
      invariant forall p :: p in tree.heap.Keys ==> p < next
      invariant AllAnswered(ops, answers)
    {
      BagNext(ops, k);
      var answer;
      answer, next := DoOne(tree, ops[k], next);
      AnswersPush(ops, answers, answer);
      answers := answers + [answer];
      k := k + 1;
    }
    assert ops[..k] == ops;
  }
}
