/**
 inet::IntervalTree itself, updated in place. `tree` is the value the links stand for;
 every method is proved to change the links exactly as the value-level steps prescribe.
 */
module IntervalTrees {
  import opened Options
  import opened IntervalTreeModel
  import opened IntervalTreeFixups
  import opened IntervalTreeLinks
  import opened IntervalTreeQuery
  import opened Sequences
  import opened IntervalTreeSplice

  /** it_recursion_node. */
  datatype Entry = Entry(startNode: Ptr, parentIndex: nat, tryRight: bool)

  /** The try_right_branch flags of entries 1..k. */
  ghost function Flags(st: seq<Entry>, k: nat): (fs: seq<bool>)
    requires k < |st|
    ensures |fs| == k && forall i :: 0 <= i < k ==> fs[i] == st[i + 1].tryRight
  {
    seq(k, i requires 0 <= i < k => st[i + 1].tryRight)
  }

  lemma FlagsPrefix(st: seq<Entry>, k: nat, n: nat)
    requires k <= n < |st|
    ensures Flags(st, k) == Flags(st, n)[..k]
  {}

  /** Work left for the query loop. */
  ghost function Work(t: Tree): nat {
    if t.Leaf? then 0 else 2 + Work(t.l) + Work(t.r)
  }

  ghost function StackWork(bs: seq<Tree>): nat {
    if bs == [] then 0
    else StackWork(bs[..|bs| - 1]) + 1 + (if bs[|bs| - 1].Br? then Work(bs[|bs| - 1].r) else 0)
  }

  lemma StackWorkPush(bs: seq<Tree>, t: Tree)
    requires t.Br?
    ensures StackWork(bs + [t]) == StackWork(bs) + 1 + Work(t.r)
  {
    assert (bs + [t])[..|bs|] == bs;
  }

  class IntervalTree {
    var heap: Heap
    ghost var tree: Tree
    var stack: seq<Entry>
    var top: nat
    var currentParent: nat

    constructor ()
      ensures Valid() && tree == Leaf && heap.Keys == {NIL, ROOT}
    {
      heap := map[NIL := Cell(None, -MAX_TIME, -MAX_TIME, -MAX_TIME, false, NIL, NIL, NIL),
                  ROOT := Cell(None, MAX_TIME, MAX_TIME, MAX_TIME, false, NIL, NIL, NIL)];
      tree := Leaf;
      stack := seq(128, _ => Entry(NIL, 0, false));
      top, currentParent := 1, 0;
    }

    /** The records are the two sentinels and the nodes of a tree that obeys all rules; the query
        stack is empty. */
    ghost predicate Valid()
      reads this
    {
      Rep(heap, Top, tree) && TreeOk(tree) && heap.Keys == {NIL, ROOT} + TNodes(tree) && top == 1 <= |stack|
    }

    /** leftRotate for Lft, rightRotate for Rgt. */
    method Rotate(s: Side, x: Ptr, ghost c: Ctx, ghost t: Tree)
      requires Rep(heap, c, t) && t.Br? && t.n == x && Kid(t, Other(s)).Br?
      modifies this`heap
      ensures heap.Keys == old(heap.Keys)
      ensures Rep(heap, c, Rot(s, t)) && heap[NIL] == old(heap[NIL])
    {
      RotateIsSafe(heap, s, c, t);
      heap := RotateRecords(heap, s, x);
      RotatedHeapIsRot(old(heap), heap, s, c, t);
    }

    method SetRed(n: Ptr, red: bool, ghost c: Ctx, ghost t: Tree)
      requires Rep(heap, c, t) && t.Br? && t.n == n
      modifies this`heap
      ensures heap.Keys == old(heap.Keys)
      ensures Rep(heap, c, Paint(t, red)) && heap[NIL] == old(heap[NIL])
    {
      WriteRep(heap, c, t, t.d.(red := red));
      heap := heap[n := heap[n].(red := red)];
    }

    /** Lines 203-208 and their mirror image. */
    method Recolor(p: Ptr, y: Ptr, g: Ptr, ghost c: Ctx, ghost t: Tree)
      requires Rep(heap, c, t) && t.Br? && HeadRed(c) && c.up.Frame? && IsRed(c.up.sib)
      requires p == c.n && y == Ref(c.up.sib) && g == c.up.n
      modifies this`heap
      ensures heap.Keys == old(heap.Keys)
      ensures var (c', t') := InsertStep(c, t); Rep(heap, c', t') && t'.Br? && t'.n == g
    {
      ghost var f, s := c.up, c.up.side;
      RepUp(heap, c, t);
      ghost var pt := Mk(c.side, t, c.n, c.d, c.sib);
      SetRed(p, false, f, pt);
      pt := Paint(pt, false);
      RepSide(heap, f, pt);
      SetRed(y, false, Frame(Other(s), f.n, f.d, pt, f.up), f.sib);
      ghost var unc := Paint(f.sib, false);
      RepUp(heap, Frame(Other(s), f.n, f.d, pt, f.up), unc);
      SetRed(g, true, f.up, Mk(s, pt, f.n, f.d, unc));
    }

    /** Lines 210-216 and their mirror image. */
    method RotateUp(s: Side, x0: Ptr, p0: Ptr, g: Ptr, ghost c: Ctx, ghost t: Tree) returns (x: Ptr)
      requires Rep(heap, c, t) && t.Br? && HeadRed(c) && c.up.Frame? && !IsRed(c.up.sib)
      requires x0 == t.n && p0 == c.n && g == c.up.n && s == c.up.side
      modifies this`heap
      ensures heap.Keys == old(heap.Keys)
      ensures var (c', t') := InsertStep(c, t); Rep(heap, c', t') && t'.Br? && t'.n == x
    {
      x := x0;
      ghost var f, pt := c.up, Mk(c.side, t, c.n, c.d, c.sib);
      Look(heap, c, t);
      RepUp(heap, c, t);
      if x == heap[p0].Kid(Other(s)) {
        x := p0;
        Rotate(s, x, f, pt);
      }
      ghost var q := Straighten(c, t);
      Look(heap, f, q);
      assert Rep(heap, f, q) && x == Ref(Kid(q, s));
      RepUp(heap, Frame(s, q.n, q.d, Kid(q, Other(s)), f), Kid(q, s));
      Look(heap, Frame(s, q.n, q.d, Kid(q, Other(s)), f), Kid(q, s));
      SetRed(heap[x].parent, false, f, q);
      q := Paint(q, false);
      RepUp(heap, f, q);
      SetRed(g, true, f.up, Mk(s, q, f.n, f.d, f.sib));
      Rotate(Other(s), g, f.up, Mk(s, q, f.n, f.d.(red := true), f.sib));
      ghost var r := RotatedUp(c, t);
      RepUp(heap, Frame(s, r.n, r.d, Kid(r, Other(s)), f.up), Kid(r, s));
    }

    /** One pass of the loop at lines 199-237. */
    method InsertPass(x0: Ptr, ghost c: Ctx, ghost t: Tree) returns (x: Ptr)
      requires Rep(heap, c, t) && t.Br? && HeadRed(c) && c.up.Frame? && x0 == t.n
      modifies this`heap
      ensures heap.Keys == old(heap.Keys)
      ensures var (c', t') := InsertStep(c, t); Rep(heap, c', t') && t'.Br? && t'.n == x
    {
      Look(heap, c, t);
      RepUp(heap, c, t);
      Look(heap, c.up, Mk(c.side, t, c.n, c.d, c.sib));
      var p := heap[x0].parent;
      var g := heap[p].parent;
      var s := if p == heap[g].left then Lft else Rgt;
      var y := heap[g].Kid(Other(s));
      if heap[y].red {
        Recolor(p, y, g, c, t);
        x := g;
      } else {
        x := RotateUp(s, x0, p, g, c, t);
      }
    }

    /** Line 183 at the head of a path. */
    method RecordMax(x: Ptr, ghost c: Ctx, ghost t: Tree)
      requires Rep(heap, c, t) && c.Frame? && x == c.n
      modifies this`heap
      ensures heap.Keys == old(heap.Keys)
      ensures var d := c.d.(mh := Max(c.d.iv.high, Max(Mh(t), Mh(c.sib))));
              Rep(heap, c.up, Mk(c.side, t, c.n, d, c.sib))
      ensures x in old(heap) && heap == old(heap)[x := old(heap)[x].(maxHigh := heap[x].maxHigh)]
      ensures heap[x].parent == Head(c.up)
    {
      Look(heap, c, t);
      RepUp(heap, c, t);
      var m := Max(heap[x].high, Max(heap[heap[x].left].maxHigh, heap[heap[x].right].maxHigh));
      WriteRep(heap, c.up, Mk(c.side, t, c.n, c.d, c.sib), c.d.(mh := m));
      heap := heap[x := heap[x].(maxHigh := m)];
    }

    /** Recomputes max_high on the whole path from x up to the root sentinel. */
    method FixupMaxHigh(x0: Ptr, ghost c: Ctx, ghost t: Tree)
      requires Rep(heap, c, t) && x0 == Head(c)
      modifies this`heap
      ensures Rep(heap, FixMax(c, Mh(t)), t)
      ensures OnlyMax(old(heap), heap)
    {
      var x := x0;
      ghost var up, sub := c, t;
      Look(heap, up, sub);
      while x != ROOT
        invariant Rep(heap, up, sub) && x == Head(up) && OnlyMax(old(heap), heap)
        invariant Plug(FixMax(up, Mh(sub)), sub) == Plug(FixMax(c, Mh(t)), t)
        decreases up
      {
        ghost var h := heap;
        RecordMax(x, up, sub);
        OnlyMaxStep(old(heap), h, heap, x);
        FixMaxStep(up, sub);
        ghost var d := up.d.(mh := Max(up.d.iv.high, Max(Mh(sub), Mh(up.sib))));
        up, sub := up.up, Mk(up.side, sub, up.n, d, up.sib);
        x := heap[x].parent;
      }
      assert up.Top? by { HeadIsRoot(heap, up, sub); }
      Refocus(heap, FixMax(c, Mh(t)), t);
    }

    /** Links z below the node where the search for its key ends; equal keys go right. */
    method RecursiveInsert(z: Ptr, iv: Interval, ghost whole: Tree) returns (ghost c: Ctx)
      requires Rep(heap, Top, whole) && Sorted(InOrder(whole)) && z !in heap
      modifies this`heap
      ensures Plug(c, Leaf) == whole && Rep(heap, c, Br(Leaf, z, Data(iv, false, iv.high), Leaf))
      ensures heap.Keys == old(heap.Keys) + {z}
      ensures forall i :: i in Before(c) ==> i.iv.low <= iv.low
      ensures forall i :: i in After(c) ==> iv.low < i.iv.low
    {
      var y := ROOT;
      var x := heap[ROOT].left;
      c := Top;
      ghost var t := whole;
      while x != NIL
        invariant Rep(heap, c, t) && x == Ref(t) && y == Head(c) && Plug(c, t) == whole
        invariant forall i :: i in Before(c) ==> i.iv.low <= iv.low
        invariant forall i :: i in After(c) ==> iv.low < i.iv.low
        invariant heap == old(heap)
        decreases t
      {
        y := x;
        Look(heap, c, t);
        PlugInOrder(c, t);
        ghost var s := if heap[x].key > iv.low then Lft else Rgt;
        DescendBounds(c, t, s, iv.low);
        ghost var c' := Frame(s, t.n, t.d, Kid(t, Other(s)), c);
        RepUp(heap, c', Kid(t, s));
        if heap[x].key > iv.low {
          x := heap[x].left;
        } else {
          x := heap[x].right;
        }
        c, t := c', Kid(t, s);
      }
      Look(heap, c, t);
      ghost var h := heap;
      heap := heap[z := Cell(Some(iv), iv.low, iv.high, iv.high, false, NIL, NIL, y)];
      if y == ROOT || heap[y].key > iv.low {
        heap := heap[y := heap[y].(left := z)];
      } else {
        heap := heap[y := heap[y].(right := z)];
      }
      AttachSide(h, c, iv.low);
      AttachRep(h, heap, c, z, Data(iv, false, iv.high));
    }

    /** Lines 192-198: link the new node, record the maxima above it, paint it red. */
    method LinkNew(iv: Interval, z: Ptr) returns (ghost c: Ctx, ghost t: Tree)
      requires Rep(heap, Top, tree) && TreeOk(tree) && z !in heap
      modifies this`heap
      ensures heap.Keys == old(heap.Keys) + {z}
      ensures Plug(c, Leaf) == tree && t == Br(Leaf, z, Data(iv, true, iv.high), Leaf)
      ensures Rep(heap, FixMax(c, iv.high), t)
      ensures forall i :: i in Before(c) ==> i.iv.low <= iv.low
      ensures forall i :: i in After(c) ==> iv.low < i.iv.low
    {
      c := RecursiveInsert(z, iv, tree);
      t := Br(Leaf, z, Data(iv, false, iv.high), Leaf);
      assert Mh(t) == iv.high;
      Look(heap, c, t);
      FixupMaxHigh(heap[z].parent, c, t);
      SetRed(z, true, FixMax(c, iv.high), t);
      t := Paint(t, true);
    }

    /** The whole of insert, seen from the tree. */
    method InsertNode(iv: Interval, z: Ptr) returns (ghost before: seq<Item>, ghost after: seq<Item>)
      requires Rep(heap, Top, tree) && TreeOk(tree) && z !in heap
      modifies this`heap, this`tree
      ensures Rep(heap, Top, tree) && TreeOk(tree) && heap.Keys == old(heap.Keys) + {z}
      ensures old(InOrder(tree)) == before + after && InOrder(tree) == before + [Item(z, iv)] + after
      ensures forall i :: i in before ==> i.iv.low <= iv.low
      ensures forall i :: i in after ==> iv.low < i.iv.low
    {
      ghost var c, t := LinkNew(iv, z);
      ReadyToInsert(c, z, iv);
      InsertedRow(c, z, iv);
      before, after := Before(c), After(c);
      InsertFixup(z, FixMax(c, iv.high), t);
    }

    /** Insertion: the new entry joins the in-order row after every entry whose key is not greater. */
    method Insert(iv: Interval, z: Ptr) returns (ghost before: seq<Item>, ghost after: seq<Item>)
      requires Valid() && z !in heap
      modifies this`heap, this`tree
      ensures Valid() && heap.Keys == old(heap.Keys) + {z}
      ensures old(InOrder(tree)) == before + after && InOrder(tree) == before + [Item(z, iv)] + after
      ensures forall i :: i in before ==> i.iv.low <= iv.low
      ensures forall i :: i in after ==> iv.low < i.iv.low
    {
      before, after := InsertNode(iv, z);
      InsertedAddresses(old(tree), tree, before, Item(z, iv), after);
    }

    /** Lines 199-238. */
    method InsertFixup(x0: Ptr, ghost c0: Ctx, ghost t0: Tree)
      requires Rep(heap, c0, t0) && t0.Br? && x0 == t0.n && InsertInv(c0, t0) && Sorted(Row(c0, t0))
      modifies this`heap, this`tree
      ensures heap.Keys == old(heap.Keys)
      ensures Rep(heap, Top, tree) && TreeOk(tree) && InOrder(tree) == Row(c0, t0)
    {
      var x := x0;
      ghost var c, t := c0, t0;
      Look(heap, c, t);
      while heap[heap[x].parent].red
        invariant Rep(heap, c, t) && t.Br? && x == t.n && x in heap && heap[x].parent == Head(c) && Head(c) in heap
        invariant InsertInv(c, t) && Row(c, t) == Row(c0, t0) && heap.Keys == old(heap.Keys)
        decreases Depth(c)
      {
        Look(heap, c, t);
        HeadRedHasGrandparent(c);
        InsertStepRow(c, t);
        InsertStepKeeps(c, t);
        x := InsertPass(x, c, t);
        c, t := InsertStep(c, t).0, InsertStep(c, t).1;
        Look(heap, c, t);
      }
      Look(heap, c, t);
      ghost var whole := Plug(c, t);
      Refocus(heap, c, t);
      Blackened(c, t);
      Look(heap, Top, whole);
      SetRed(heap[ROOT].left, false, Top, whole);
      tree := Paint(whole, false);
    }

    /** Lines 332-336: a red sibling is rotated above the parent. */
    method RotateSibling(s: Side, p: Ptr, w: Ptr, ghost c: Ctx, ghost t: Tree)
      requires Rep(heap, c, t) && c.Frame? && c.side == s && IsRed(c.sib) && p == c.n && w == c.sib.n
      modifies this`heap
      ensures heap.Keys == old(heap.Keys)
      ensures Rep(heap, RedSibling(c, t), t) && heap[NIL] == old(heap[NIL])
    {
      ghost var cs := Frame(Other(s), c.n, c.d, t, c.up);
      RepSide(heap, c, t);
      SetRed(w, false, cs, c.sib);
      ghost var sib := Paint(c.sib, false);
      RepUp(heap, cs, sib);
      MkOther(s, t, c.n, c.d, sib);
      SetRed(p, true, c.up, Mk(s, t, c.n, c.d, sib));
      ghost var m := Mk(s, t, c.n, c.d.(red := true), sib);
      Rotate(s, p, c.up, m);
      ghost var r := RedSibling(c, t);
      RotParts(s, m);
      RepUp(heap, r, t);
      RepUp(heap, r.up, Mk(s, t, r.n, r.d, r.sib));
    }

    /** Lines 339-340. */
    method ReddenSibling(w: Ptr, ghost c: Ctx, ghost t: Tree)
      requires Rep(heap, c, t) && c.Frame? && c.sib.Br? && w == c.sib.n
      modifies this`heap
      ensures heap.Keys == old(heap.Keys)
      ensures var (c', t') := BlackNephews(c, t); Rep(heap, c', t')
    {
      ghost var s, cs := c.side, Frame(Other(c.side), c.n, c.d, t, c.up);
      RepSide(heap, c, t);
      SetRed(w, true, cs, c.sib);
      RepUp(heap, cs, Paint(c.sib, true));
      MkOther(s, t, c.n, c.d, Paint(c.sib, true));
    }

    /** Lines 343-348: make sure the far nephew is red. */
    method StraightenSibling(s: Side, w0: Ptr, p: Ptr, ghost c: Ctx, ghost t: Tree) returns (w: Ptr)
      requires Rep(heap, c, t) && c.Frame? && c.side == s && c.sib.Br? && w0 == c.sib.n && p == c.n
      requires IsRed(c.sib.l) || IsRed(c.sib.r)
      modifies this`heap
      ensures heap.Keys == old(heap.Keys)
      ensures Rep(heap, Frame(Other(s), c.n, c.d, t, c.up), FarRed(c)) && w == FarRed(c).n
    {
      w := w0;
      ghost var cs, near, far := Frame(Other(s), c.n, c.d, t, c.up), Kid(c.sib, s), Kid(c.sib, Other(s));
      RepSide(heap, c, t);
      ghost var cn := Frame(s, c.sib.n, c.sib.d, far, cs);
      RepUp(heap, cn, near);
      Look(heap, cn, near);
      Look(heap, cs, c.sib);
      if !heap[heap[w].Kid(Other(s))].red {
        SetRed(heap[w].Kid(s), false, cn, near);
        RepUp(heap, cn, Paint(near, false));
        SetRed(w, true, cs, Mk(s, Paint(near, false), c.sib.n, c.sib.d, far));
        Rotate(Other(s), w, cs, Mk(s, Paint(near, false), c.sib.n, c.sib.d.(red := true), far));
        Look(heap, cs, FarRed(c));
        w := heap[p].Kid(Other(s));
      }
    }

    /** Lines 349-352. */
    method FinishDelete(s: Side, w: Ptr, p: Ptr, ghost c: Ctx, ghost t: Tree)
      requires c.Frame? && c.side == s && c.sib.Br? && (IsRed(c.sib.l) || IsRed(c.sib.r)) && p == c.n
      requires Rep(heap, Frame(Other(s), c.n, c.d, t, c.up), FarRed(c)) && w == FarRed(c).n
      modifies this`heap
      ensures heap.Keys == old(heap.Keys)
      ensures Rep(heap, c.up, LastRotation(c, t))
    {
      ghost var cs, f := Frame(Other(s), c.n, c.d, t, c.up), FarRed(c);
      Look(heap, cs, f);
      SetRed(w, heap[p].red, cs, f);
      f := Paint(f, c.d.red);
      RepUp(heap, cs, f);
      MkOther(s, t, c.n, c.d, f);
      SetRed(p, false, c.up, Mk(s, t, c.n, c.d, f));
      cs := Frame(Other(s), c.n, c.d.(red := false), t, c.up);
      RepUp(heap, cs, f);
      MkOther(s, t, c.n, cs.d, f);
      ghost var cf := Frame(Other(s), f.n, f.d, Kid(f, s), cs);
      RepUp(heap, cf, Kid(f, Other(s)));
      Look(heap, cf, Kid(f, Other(s)));
      SetRed(heap[w].Kid(Other(s)), false, cf, Kid(f, Other(s)));
      ghost var far := Paint(Kid(f, Other(s)), false);
      RepUp(heap, cf, far);
      MkOther(s, Kid(f, s), f.n, f.d, far);
      ghost var f' := Mk(s, Kid(f, s), f.n, f.d, far);
      RepUp(heap, cs, f');
      MkOther(s, t, c.n, cs.d, f');
      Rotate(s, p, c.up, Mk(s, t, c.n, cs.d, f'));
    }

    /** Lines 338-354, once the sibling is black. */
    method BlackSiblingPass(s: Side, w: Ptr, p: Ptr, top: Ptr, ghost c: Ctx, ghost t: Tree)
      returns (x: Ptr, ghost c': Ctx, ghost t': Tree, ghost done: bool)
      requires Rep(heap, c, t) && c.Frame? && c.side == s && p == c.n && w == Ref(c.sib)
      requires DeleteInv(c, t) && !IsRed(t) && !IsRed(c.sib) && TopKnown(c, top)
      modifies this`heap
      ensures heap.Keys == old(heap.Keys)
      ensures FixupState(heap, x, top, c', t', done) && Row(c', t') == Row(c, t)
      ensures !done ==> c' == c.up && IsRed(t') == c.d.red
    {
      SiblingIsThere(c, t);
      RepSide(heap, c, t);
      Look(heap, Frame(Other(s), c.n, c.d, t, c.up), c.sib);
      NephewsInHeap(heap, Frame(Other(s), c.n, c.d, t, c.up), c.sib);
      if !heap[heap[w].right].red && !heap[heap[w].left].red {
        ReddenSibling(w, c, t);
        BlackNephewsKeeps(c, t);
        x, done := p, false;
        c', t' := BlackNephews(c, t).0, BlackNephews(c, t).1;
        Look(heap, c', t');
      } else {
        var w' := StraightenSibling(s, w, p, c, t);
        FinishDelete(s, w', p, c, t);
        LastRotationTop(heap, c, t, top);
        LastRotationKeeps(c, t);
        x, done := top, true;
        c', t' := c.up, LastRotation(c, t);
      }
    }

    /** One pass of the loop at lines 329-382. */
    method DeletePass(x0: Ptr, top: Ptr, ghost c0: Ctx, ghost t: Tree)
      returns (x: Ptr, ghost c': Ctx, ghost t': Tree, ghost done: bool)
      requires FixupState(heap, x0, top, c0, t, false) && !IsRed(t) && c0.Frame? && x0 != top
      modifies this`heap
      ensures heap.Keys == old(heap.Keys)
      ensures FixupState(heap, x, top, c', t', done) && Row(c', t') == Row(c0, t)
      ensures !done ==> Depth(c') < Depth(c0) || (Depth(c') == Depth(c0) && IsRed(t'))
    {
      ghost var c := c0;
      SiblingIsThere(c, t);
      Look(heap, c, t);
      var p := heap[x0].parent;
      var s := if x0 == heap[p].left then Lft else Rgt;
      assert s == c.side by { NotBoth(heap, c, t); }
      var w := heap[p].Kid(Other(s));
      if heap[w].red {
        RotateSibling(s, p, w, c, t);
        RedSiblingKeeps(c, t);
        c := RedSibling(c, t);
        Look(heap, c, t);
        w := heap[p].Kid(Other(s));
      }
      x, c', t', done := BlackSiblingPass(s, w, p, top, c, t);
    }

    /** deleteFixup. The top node is read once, before any rotation. */
    method DeleteFixup(x0: Ptr, ghost c0: Ctx, ghost t0: Tree)
      requires Rep(heap, c0, t0) && x0 == Ref(t0) && x0 in heap && heap[x0].parent == Head(c0)
      requires DeleteInv(c0, t0) && Sorted(Row(c0, t0))
      modifies this`heap, this`tree
      ensures heap.Keys == old(heap.Keys)
      ensures Rep(heap, Top, tree) && TreeOk(tree) && InOrder(tree) == Row(c0, t0)
    {
      var top := heap[ROOT].left;
      var x := x0;
      ghost var c, t, done := c0, t0, false;
      RootRef(heap, c, t);
      Look(heap, c, t);
      while !heap[x].red && top != x
        invariant FixupState(heap, x, top, c, t, done) && x in heap && Row(c, t) == Row(c0, t0)
        invariant heap.Keys == old(heap.Keys)
        decreases if done then 0 else 1, Depth(c), if IsRed(t) then 0 else 1
      {
        Look(heap, c, t);
        x, c, t, done := DeletePass(x, top, c, t);
        Look(heap, c, t);
      }
      PaintLast(x, top, c, t, done);
    }

    /** Line 383: the node where the loop ended becomes black. */
    method PaintLast(x: Ptr, top: Ptr, ghost c: Ctx, ghost t0: Tree, ghost done: bool)
      requires FixupState(heap, x, top, c, t0, done) && x in heap && (heap[x].red || top == x) && Sorted(Row(c, t0))
      modifies this`heap, this`tree
      ensures heap.Keys == old(heap.Keys)
      ensures Rep(heap, Top, tree) && TreeOk(tree) && InOrder(tree) == Row(c, t0)
    {
      ghost var t := t0;
      Look(heap, c, t);
      if !done { RootRef(heap, c, t); }
      ghost var h := heap;
      heap := heap[x := heap[x].(red := false)];
      if done || t.Leaf? {
        assert heap == h;
      } else {
        WriteRep(h, c, t, t.d.(red := false));
        PaintFacts(t, false);
        t := Paint(t, false);
      }
      Assemble(c, t);
      Refocus(heap, c, t);
      tree := Plug(c, t);
    }

    /** getMinimum: the leftmost node below x. */
    method GetMinimum(x0: Ptr, ghost c: Ctx, ghost t: Tree) returns (x: Ptr)
      requires Rep(heap, c, t) && t.Br? && x0 == t.n
      ensures x == Least(t).n
    {
      x := x0;
      ghost var up, sub := c, t;
      Look(heap, up, sub);
      while heap[x].left != NIL
        invariant Rep(heap, up, sub) && sub.Br? && x == sub.n && x in heap && heap[x].left == Ref(sub.l)
        invariant Least(sub) == Least(t)
        decreases sub
      {
        Look(heap, up, sub);
        RepUp(heap, Frame(Lft, sub.n, sub.d, sub.r, up), sub.l);
        x := heap[x].left;
        up, sub := Frame(Lft, sub.n, sub.d, sub.r, up), sub.l;
        Look(heap, up, sub);
      }
      Look(heap, up, sub);
    }

    /** Lines 417-428. */
    method Splice(y: Ptr, ghost c: Ctx, ghost t: Tree) returns (x: Ptr, ghost k: Tree)
      requires Rep(heap, c, t) && t.Br? && t.n == y && (t.l.Leaf? || t.r.Leaf?)
      modifies this`heap
      ensures heap.Keys == old(heap.Keys)
      ensures OnlyChild(t, k) && k == (if t.l.Leaf? then t.r else t.l)
      ensures Rep(heap, c, k) && x == Ref(k) && x in heap && heap[x].parent == Head(c)
      ensures y in old(heap) && y in heap && heap[y] == old(heap)[y] && y !in CNodes(c) && y !in TNodes(k)
    {
      ghost var h := heap;
      Look(heap, c, t);
      NephewsInHeap(heap, c, t);
      k := if t.l.Leaf? then t.r else t.l;
      x := if heap[y].left == NIL then heap[y].right else heap[y].left;
      var p := heap[y].parent;
      heap := heap[x := heap[x].(parent := p)];
      if p == ROOT {
        heap := heap[ROOT := heap[ROOT].(left := x)];
      } else if y == heap[p].left {
        heap := heap[p := heap[p].(left := x)];
      } else {
        heap := heap[p := heap[p].(right := x)];
      }
      SpliceAddresses(h, c, t, k);
      SpliceRep(h, heap, c, t, k);
    }

    /** Lines 444-449 and 454-455: a black node left a shortage, a red one did not. */
    method Repair(x: Ptr, wasRed: bool, ghost p: Ctx, ghost k: Tree)
      requires Rep(heap, p, k) && x == Ref(k) && x in heap && heap[x].parent == Head(p) && Sorted(Row(p, k))
      requires if wasRed then Settled(p, k) else DeleteInv(p, k)
      modifies this`heap, this`tree
      ensures heap.Keys == old(heap.Keys)
      ensures Rep(heap, Top, tree) && TreeOk(tree) && InOrder(tree) == Row(p, k)
    {
      if !wasRed {
        DeleteFixup(x, p, k);
      } else {
        Assemble(p, k);
        Refocus(heap, p, k);
        tree := Plug(p, k);
      }
    }

    /** Deletion of a node that lacks a child. */
    method DeleteSingle(z: Ptr, ghost c: Ctx, ghost t: Tree)
      requires Rep(heap, c, t) && t.Br? && t.n == z && (t.l.Leaf? || t.r.Leaf?) && TreeOk(Plug(c, t))
      modifies this`heap, this`tree
      ensures heap.Keys == old(heap.Keys)
      ensures Rep(heap, Top, tree) && TreeOk(tree)
      ensures Drops(InOrder(Plug(c, t)), InOrder(tree), Item(z, t.d.iv), |Before(c)| + |InOrder(t.l)|)
    {
      Look(heap, c, t);
      var x; ghost var k;
      x, k := Splice(z, c, t);
      FixupMaxHigh(heap[x].parent, c, k);
      SingleReady(c, t, k);
      SingleRow(c, t, k);
      FixMaxOnPath(c, z, Mh(k));
      ghost var p := FixMax(c, Mh(k));
      Look(heap, p, k);
      Repair(x, heap[z].red, p, k);
    }

    /** Lines 433-441: y takes over the links of z. */
    method Transplant(y: Ptr, z: Ptr, ghost c: Ctx, ghost t: Tree, ghost d: Data)
      requires Rep(heap, c, t) && t.Br? && t.n == z && t.l.Br?
      requires y in heap && y !in {NIL, ROOT} && y !in TNodes(t) && y !in CNodes(c)
      requires heap[y] == CellOf(d, heap[y].left, heap[y].right, heap[y].parent)
      modifies this`heap
      ensures heap.Keys == old(heap.Keys)
      ensures Rep(heap, c, Br(t.l, y, d.(mh := -MAX_TIME), t.r))
      ensures z in old(heap) && z in heap && heap[z] == old(heap)[z]
      ensures heap[NIL].parent == if t.r.Leaf? then y else old(heap[NIL].parent)
    {
      ghost var h := heap;
      Look(heap, c, t);
      NephewsInHeap(heap, c, t);
      TransplantAddresses(heap, c, t, y);
      heap := TransplantRecords(heap, y, z);
      ReplaceRep(h, heap, c, t, y, d.(mh := -MAX_TIME));
    }

    /** Splice out the successor of z and put it in z's place, with its own colour for now. */
    method MoveSuccessor(z: Ptr, ghost c: Ctx, ghost t: Tree) returns (x: Ptr, y: Ptr)
      requires Rep(heap, c, t) && t.Br? && t.n == z && t.l.Br? && t.r.Br?
      modifies this`heap
      ensures heap.Keys == old(heap.Keys)
      ensures var m := Least(t.r); var p := Spine(t.r, Heir(c, t, m.d.red));
              Rep(heap, p, m.r) && y == m.n && x == Ref(m.r) && x in heap && heap[x].parent == Head(p)
      ensures z in heap && heap[z].red == t.d.red && y in heap && heap[y].red == Least(t.r).d.red
    {
      ghost var m, f := Least(t.r), Frame(Rgt, t.n, t.d, t.l, c);
      Look(heap, c, t);
      RepUp(heap, f, t.r);
      y := GetMinimum(heap[z].right, f, t.r);
      SpineRep(heap, t.r, f);
      Look(heap, Spine(t.r, f), m);
      ghost var k;
      x, k := Splice(y, Spine(t.r, f), m);
      SpineRep(heap, t.r, f);
      ghost var rest := WithoutLeast(t.r);
      RepUp(heap, f, rest);
      SpineNodes(t.r, f);
      Transplant(y, z, c, Br(t.l, z, t.d, rest), m.d);
      ghost var f' := Heir(c, t, m.d.red);
      Look(heap, c, Br(t.l, y, f'.d, rest));
      RepUp(heap, f', rest);
      SpineRep(heap, t.r, f');
      SpineHead(t.r, f, f');
      Look(heap, Spine(t.r, f'), m.r);
    }

    /** Lines 417-442: the successor stands in place of z, with its own colour, maxima recorded. */
    method SuccessorInPlace(z: Ptr, ghost c: Ctx, ghost t: Tree) returns (x: Ptr, y: Ptr)
      requires Rep(heap, c, t) && t.Br? && t.n == z && t.l.Br? && t.r.Br?
      modifies this`heap
      ensures heap.Keys == old(heap.Keys)
      ensures var m := Least(t.r); var q := Spine(t.r, Heir(c, t, m.d.red));
              Rep(heap, FixMax(q, Mh(m.r)), m.r) && y == m.n && x == Ref(m.r) && x in heap && heap[x].parent == Head(q)
      ensures z in heap && heap[z].red == t.d.red && y in heap && heap[y].red == Least(t.r).d.red
    {
      x, y := MoveSuccessor(z, c, t);
      FixupMaxHigh(heap[x].parent, Spine(t.r, Heir(c, t, Least(t.r).d.red)), Least(t.r).r);
    }

    /** Line 443 as well: with the colour of z. */
    method ReplaceBySuccessor(z: Ptr, ghost c: Ctx, ghost t: Tree) returns (x: Ptr, wasRed: bool)
      requires Rep(heap, c, t) && t.Br? && t.n == z && t.l.Br? && t.r.Br?
      modifies this`heap
      ensures heap.Keys == old(heap.Keys) && wasRed == Least(t.r).d.red
      ensures var k, p := Least(t.r).r, FixMax(Spine(t.r, Heir(c, t, t.d.red)), Mh(Least(t.r).r));
              Rep(heap, p, k) && x == Ref(k) && x in heap && heap[x].parent == Head(p)
    {
      LeastAvoided(heap, t.r, z);
      var y;
      x, y := SuccessorInPlace(z, c, t);
      ghost var m := Least(t.r);
      ghost var p := FixMax(Spine(t.r, Heir(c, t, m.d.red)), Mh(m.r));
      ghost var p' := FixMax(Spine(t.r, Heir(c, t, t.d.red)), Mh(m.r));
      PaintHeir(c, t, m.d.red, t.d.red, Mh(m.r));
      wasRed := heap[y].red;
      PaintOnSpot(y, heap[z].red, p, p', m.r);
      HeirHead(c, t, m.d.red, t.d.red, Mh(m.r));
      Look(heap, p', m.r);
    }

    /** Painting a node somewhere above the position. */
    method PaintOnSpot(y: Ptr, red: bool, ghost p: Ctx, ghost p': Ctx, ghost k: Tree)
      requires Rep(heap, p, k) && OnPath(p, y) && p' == PaintOn(p, y, red) && y in heap && Ref(k) in heap
      modifies this`heap
      ensures heap.Keys == old(heap.Keys) && Rep(heap, p', k)
      ensures heap == old(heap)[y := old(heap)[y].(red := red)]
    {
      PaintOnWhole(heap, p, k, y, red);
      heap := heap[y := heap[y].(red := red)];
    }

    /** Deletion of a node with two children. */
    method DeleteDouble(z: Ptr, ghost c: Ctx, ghost t: Tree)
      requires Rep(heap, c, t) && t.Br? && t.n == z && t.l.Br? && t.r.Br? && TreeOk(Plug(c, t))
      modifies this`heap, this`tree
      ensures heap.Keys == old(heap.Keys)
      ensures Rep(heap, Top, tree) && TreeOk(tree)
      ensures Drops(InOrder(Plug(c, t)), InOrder(tree), Item(z, t.d.iv), |Before(c)| + |InOrder(t.l)|)
    {
      var x, wasRed := ReplaceBySuccessor(z, c, t);
      DoubleReady(c, t);
      DoubleRow(c, t);
      Repair(x, wasRed, FixMax(Spine(t.r, Heir(c, t, t.d.red)), Mh(Least(t.r).r)), Least(t.r).r);
    }

    /** Takes the node out of the tree; its record is still there. */
    method Unlink(z: Ptr) returns (iv: Interval, ghost k: nat)
      requires Rep(heap, Top, tree) && TreeOk(tree) && z in TNodes(tree)
      modifies this`heap, this`tree
      ensures Rep(heap, Top, tree) && TreeOk(tree) && heap.Keys == old(heap.Keys)
      ensures Drops(old(InOrder(tree)), InOrder(tree), Item(z, iv), k)
    {
      ghost var c, t := Focus(tree, z, Top);
      Refocus(heap, c, t);
      Look(heap, c, t);
      iv := heap[z].stored.value;
      k := |Before(c)| + |InOrder(t.l)|;
      if heap[z].left == NIL || heap[z].right == NIL {
        DeleteSingle(z, c, t);
      } else {
        DeleteDouble(z, c, t);
      }
    }

    /** deleteNode(Node *): the node leaves the row, everything else stays in order. */
    method DeleteNode(z: Ptr) returns (iv: Interval, ghost k: nat)
      requires Valid() && z in TNodes(tree)
      modifies this`heap, this`tree
      ensures Valid() && Drops(old(InOrder(tree)), InOrder(tree), Item(z, iv), k) && heap.Keys == old(heap.Keys) - {z}
    {
      RepDistinct(heap, tree, ROOT);
      NodesInHeap(heap, tree, ROOT);
      iv, k := Unlink(z);
      DroppedAddresses(old(tree), tree, Item(z, iv), k);
      FreeRep(heap, tree, z);
      heap := heap - {z};
    }

    /** recursiveSearch: some node that stores iv, or NIL. */
    method RecursiveSearch(x: Ptr, iv: Interval, ghost t: Tree, ghost p: Ptr) returns (n: Ptr)
      requires Sentinels(heap) && RepT(heap, t, p) && x == Ref(t)
      ensures n != NIL ==> Item(n, iv) in InOrder(t) && n in TNodes(t)
      ensures n == NIL ==> forall i :: i in InOrder(t) ==> i.iv != iv
      decreases t
    {
      if x != NIL {
        if heap[x].stored == Some(iv) {
          return x;
        }
        var left := RecursiveSearch(heap[x].left, iv, t.l, x);
        if left != NIL {
          NodesInHeap(heap, t, p);
          return left;
        }
        var right := RecursiveSearch(heap[x].right, iv, t.r, x);
        if right != NIL {
          NodesInHeap(heap, t, p);
          return right;
        }
      }
      return NIL;
    }

    /** deleteNode(const Interval *): one node that stores the interval leaves, if there is one. */
    method DeleteInterval(iv: Interval) returns (ghost n: Ptr, ghost k: nat)
      requires Valid()
      modifies this`heap, this`tree
      ensures Valid()
      ensures if exists i :: i in old(InOrder(tree)) && i.iv == iv
              then Drops(old(InOrder(tree)), InOrder(tree), Item(n, iv), k) && heap.Keys == old(heap.Keys) - {n}
              else tree == old(tree) && heap == old(heap)
    {
      var node := RecursiveSearch(heap[ROOT].left, iv, tree, ROOT);
      n, k := node, 0;
      if node != NIL {
        ghost var row := InOrder(tree);
        RepDistinct(heap, tree, ROOT);
        var stored;
        stored, k := DeleteNode(node);
        SameNodeSameItem(row, Item(node, iv), Item(node, stored));
      }
    }

    // ---- query -----------------------------------------------------------------------

    /** Entries 1..top-1 of the stack are the nodes bs, whose right subtrees are still to be decided. */
    ghost predicate StackOk(bs: seq<Tree>)
      reads this
    {
      && |bs| + 1 == top <= |stack| && Sentinels(heap)
      && (forall b :: b in bs ==> b.Br?)
      && forall i :: 0 <= i < |bs| ==> EntryOk(bs[i], i + 1)
    }

    ghost predicate EntryOk(b: Tree, k: nat)
      reads this
    {
      && 0 < k < |stack| && b.Br? && b.n in heap && RepT(heap, b, heap[b.n].parent)
      && stack[k].startNode == b.n && stack[k].parentIndex == k - 1
    }

    /** Lines 482-485: report x and raise the enclosing flag. */
    method Report(x: Ptr, lo: Time, hi: Time, ghost t: Tree, ghost bs: seq<Tree>) returns (hit: seq<Interval>)
      requires StackOk(bs) && currentParent == |bs| && t.Br? && x == t.n && x in heap
      requires heap[x] == CellOf(t.d, Ref(t.l), Ref(t.r), heap[x].parent)
      modifies this`stack
      ensures hit == Own(t.d, lo, hi) && StackOk(bs)
      ensures Flags(stack, |bs|) == Raise(old(Flags(stack, |bs|)), hit != [])
    {
      hit := [];
      if Overlap(lo, hi, heap[x].key, heap[x].high) {
        hit := [heap[x].stored.value];
        stack := stack[currentParent := stack[currentParent].(tryRight := true)];
      }
    }

    /** The query loop stands at subtree t, with bs on the stack and `rest` still to be delivered. */
    ghost predicate At(x: Ptr, t: Tree, bs: seq<Tree>, rest: seq<Interval>, lo: Time, hi: Time)
      reads this
    {
      && StackOk(bs) && x == Ref(t) && x in heap && (x == NIL <==> t.Leaf?)
      && (t.Br? ==> RepT(heap, t, heap[x].parent) && currentParent == |bs|)
      && rest == Remaining(t, bs, Flags(stack, |bs|), lo, hi)
    }

    /** Lines 487-497: push x, growing the stack if it is full. */
    method Push(x: Ptr, ghost t: Tree, ghost bs: seq<Tree>)
      requires StackOk(bs) && currentParent == |bs| && t.Br? && x == t.n && x in heap && RepT(heap, t, heap[x].parent)
      modifies this`stack, this`top, this`currentParent
      ensures StackOk(bs + [t]) && currentParent == |bs| + 1
      ensures Flags(stack, |bs| + 1) == old(Flags(stack, |bs|)) + [false]
    {
      if top == |stack| {
        stack := stack + seq(|stack|, _ => Entry(NIL, 0, false));
      }
      stack := stack[top := Entry(x, currentParent, false)];
      currentParent := top;
      top := top + 1;
      forall i | 0 <= i < |bs + [t]| ensures EntryOk((bs + [t])[i], i + 1) {
        if i < |bs| { assert old(EntryOk(bs[i], i + 1)); }
      }
      forall b | b in bs + [t] ensures b.Br? { assert b in bs || b == t; }
      assert Flags(stack, |bs| + 1) == Flags(old(stack), |bs|) + [false];
    }

    /** Lines 486-501: down to the left or to the right, after the node itself was looked at. */
    method Descend(x0: Ptr, lo: Time, hi: Time, ghost t: Tree, ghost bs: seq<Tree>)
      returns (x: Ptr, ghost t': Tree, ghost bs': seq<Tree>)
      requires StackOk(bs) && currentParent == |bs| && t.Br? && x0 == t.n && x0 in heap
      requires RepT(heap, t, heap[x0].parent)
      modifies this`stack, this`top, this`currentParent
      ensures StackOk(bs') && currentParent == |bs'| && x == Ref(t')
      ensures Work(t') + StackWork(bs') < Work(t) + StackWork(bs)
      ensures RepT(heap, t', x0)
      ensures if Mh(t.l) >= lo
              then t' == t.l && bs' == bs + [t] && Flags(stack, |bs'|) == old(Flags(stack, |bs|)) + [false]
              else t' == t.r && bs' == bs && Flags(stack, |bs'|) == old(Flags(stack, |bs|))
    {
      RefMax(heap, t.l, x0);
      if heap[heap[x0].left].maxHigh >= lo {
        StackWorkPush(bs, t);
        Push(x0, t, bs);
        x, t', bs' := heap[x0].left, t.l, bs + [t];
      } else {
        x, t', bs' := heap[x0].right, t.r, bs;
      }
    }

    /** Lines 482-501: one node, then down to the left or to the right. */
    method Visit(x0: Ptr, lo: Time, hi: Time, ghost t: Tree, ghost bs: seq<Tree>, ghost rest: seq<Interval>)
      returns (hit: seq<Interval>, x: Ptr, ghost t': Tree, ghost bs': seq<Tree>, ghost rest': seq<Interval>)
      requires At(x0, t, bs, rest, lo, hi) && x0 != NIL
      modifies this`stack, this`top, this`currentParent
      ensures At(x, t', bs', rest', lo, hi) && rest == hit + rest'
      ensures Work(t') + StackWork(bs') < Work(t) + StackWork(bs)
    {
      ghost var fs := Flags(stack, |bs|);
      hit := Report(x0, lo, hi, t, bs);
      if Mh(t.l) >= lo { VisitLeft(t, bs, fs, lo, hi); } else { VisitRight(t, bs, fs, lo, hi); }
      x, t', bs' := Descend(x0, lo, hi, t, bs);
      RefMax(heap, t', x0);
      NilIsLeaf(heap, t', x0);
      rest' := Remaining(t', bs', Flags(stack, |bs'|), lo, hi);
    }

    /** Line 505. */
    method PopTop(ghost bs: seq<Tree>)
      requires StackOk(bs) && bs != []
      modifies this`top
      ensures StackOk(bs[..|bs| - 1]) && top == |bs|
      ensures Flags(stack, |bs| - 1) == old(Flags(stack, |bs|))[..|bs| - 1]
    {
      ghost var rest, k := bs[..|bs| - 1], |bs| - 1;
      top := top - 1;
      forall b | b in rest ensures b.Br? { assert b in bs; }
      forall i | 0 <= i < |rest| ensures EntryOk(rest[i], i + 1) {
        assert rest[i] == bs[i] && old(EntryOk(bs[i], i + 1));
      }
      FlagsPrefix(stack, k, |bs|);
    }

    /** Lines 507-509: on to the right, and the enclosing flag is raised. */
    method EnterRight(ghost b: Tree, ghost bs: seq<Tree>) returns (x: Ptr)
      requires StackOk(bs) && top < |stack| && b.Br? && b.n in heap && RepT(heap, b, heap[b.n].parent)
      requires stack[top].startNode == b.n && stack[top].parentIndex == |bs|
      modifies this`stack, this`currentParent
      ensures StackOk(bs) && currentParent == |bs| && x == Ref(b.r)
      ensures Flags(stack, |bs|) == Raise(old(Flags(stack, |bs|)), true)
    {
      x := heap[stack[top].startNode].right;
      currentParent := stack[top].parentIndex;
      stack := stack[currentParent := stack[currentParent].(tryRight := true)];
    }

    /** Lines 505-510: pop one entry; its right subtree is entered if its flag is up. */
    method PopEntry(lo: Time, hi: Time, ghost bs: seq<Tree>, ghost rest: seq<Interval>)
      returns (x: Ptr, ghost t': Tree, ghost bs': seq<Tree>)
      requires At(NIL, Leaf, bs, rest, lo, hi) && top > 1
      modifies this`stack, this`top, this`currentParent
      ensures At(x, t', bs', rest, lo, hi) && Work(t') + StackWork(bs') < StackWork(bs)
    {
      ghost var k := |bs| - 1;
      ghost var b, fs := bs[k], Flags(stack, |bs|);
      Pop(bs, fs, lo, hi);
      RefMax(heap, b.r, b.n);
      x, t', bs' := NIL, Leaf, bs[..k];
      PopTop(bs);
      if stack[top].tryRight {
        x := EnterRight(b, bs');
        t' := b.r;
      }
    }

    /** Lines 503-511: pop until a right subtree is entered or the stack is empty. */
    method PopAll(x0: Ptr, lo: Time, hi: Time, ghost t: Tree, ghost bs: seq<Tree>, ghost rest: seq<Interval>)
      returns (x: Ptr, ghost t': Tree, ghost bs': seq<Tree>)
      requires At(x0, t, bs, rest, lo, hi)
      modifies this`stack, this`top, this`currentParent
      ensures At(x, t', bs', rest, lo, hi) && (x == NIL ==> bs' == [])
      ensures Work(t') + StackWork(bs') <= Work(t) + StackWork(bs)
    {
      x, t', bs' := x0, t, bs;
      var run := x != NIL;
      while !run && top > 1
        invariant At(x, t', bs', rest, lo, hi) && run == (x != NIL)
        invariant Work(t') + StackWork(bs') <= Work(t) + StackWork(bs)
        decreases Work(t') + StackWork(bs')
      {
        x, t', bs' := PopEntry(lo, hi, bs', rest);
        run := x != NIL;
      }
    }

    /** query: exactly the search of `Pruned`, whatever the arguments; the stack is empty again. */
    method Query(lo: Time, hi: Time) returns (result: seq<Interval>)
      requires Valid()
      modifies this`stack, this`top, this`currentParent
      ensures Valid() && result == Pruned(tree, lo, hi)
      ensures -MAX_TIME < lo <= hi && Proper(InOrder(tree)) ==>
                result == Hits(tree, lo, hi) && Answers(result, Bag(InOrder(tree)), lo, hi)
    {
      Look(heap, Top, tree);
      EmptyStack(tree, lo, hi);
      currentParent := 0;
      assert Flags(stack, 0) == [];
      result := Search(heap[ROOT].left, lo, hi, tree, Pruned(tree, lo, hi));
      if -MAX_TIME < lo <= hi && Proper(InOrder(tree)) {
        WellFormedRow(tree);
        PrunedIsComplete(tree, lo, hi);
        HitsAnswer(tree, lo, hi);
      }
    }

    /** Lines 481-513. */
    method Search(x0: Ptr, lo: Time, hi: Time, ghost t0: Tree, ghost goal: seq<Interval>)
      returns (result: seq<Interval>)
      requires At(x0, t0, [], goal, lo, hi)
      modifies this`stack, this`top, this`currentParent
      ensures StackOk([]) && result == goal
    {
      result := [];
      var x := x0;
      var run := x != NIL;
      ghost var t, bs, rest := t0, [], goal;
      while run
        invariant At(x, t, bs, rest, lo, hi) && run == (x != NIL) && (!run ==> bs == [])
        invariant result + rest == goal
        decreases Work(t) + StackWork(bs)
      {
        var hit;
        hit, x, t, bs, rest := Visit(x, lo, hi, t, bs, rest);
        Regroup(result, hit, rest);
        result := result + hit;
        x, t, bs := PopAll(x, lo, hi, t, bs, rest);
        run := x != NIL;
      }
      assert rest == [] by {
        EmptyStack(Leaf, lo, hi);
        assert Flags(stack, 0) == [];
      }
    }
  }
}
