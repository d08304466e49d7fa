/**
 Node memory and what it stands for: the records of inet::IntervalTree linked by left,
 right and parent addresses, with two sentinels. The memory is a map from addresses to
 records, so every alias of the source is an alias here. `Rep` says that a memory spells
 out a tree seen from a position in it.
 */
module IntervalTreeLinks {
  import opened Options
  import opened IntervalTreeModel
  import opened IntervalTreeFixups
  import opened IntervalTreeSplice

  /** IntervalTree::Node. */
  datatype Cell = Cell(stored: Option<Interval>, key: Time, high: Time, maxHigh: Time, red: bool,
                       left: Ptr, right: Ptr, parent: Ptr)
  {
    function Kid(s: Side): Ptr {
      if s == Lft then left else right
    }

    function SetKid(s: Side, k: Ptr): Cell {
      if s == Lft then this.(left := k) else this.(right := k)
    }
  }

  type Heap = map<Ptr, Cell>

  // ---- what the links stand for -------------------------------------------------------

  /** The pointer that represents a subtree. */
  function Ref(t: Tree): Ptr {
    if t.Leaf? then NIL else t.n
  }

  /** The node above the hole. */
  function Head(c: Ctx): Ptr {
    if c.Top? then ROOT else c.n
  }

  /** The record of a node that stores d and hangs below p. */
  function CellOf(d: Data, l: Ptr, r: Ptr, p: Ptr): Cell {
    Cell(Some(d.iv), d.iv.low, d.iv.high, d.mh, d.red, l, r, p)
  }

  /** The same with the child on side s given first. */
  function CellAt(s: Side, d: Data, near: Ptr, far: Ptr, p: Ptr): Cell {
    if s == Lft then CellOf(d, near, far, p) else CellOf(d, far, near, p)
  }

  /** The links below p spell out t. */
  ghost predicate RepT(h: Heap, t: Tree, p: Ptr) {
    match t
    case Leaf => true
    case Br(l, n, d, r) =>
      && n != NIL && n != ROOT && n in h && h[n] == CellOf(d, Ref(l), Ref(r), p)
      && n !in TNodes(l) && n !in TNodes(r) && TNodes(l) !! TNodes(r)
      && RepT(h, l, n) && RepT(h, r, n)
  }

  /** The links above a hole filled with `hole` spell out c. */
  ghost predicate RepC(h: Heap, c: Ctx, hole: Ptr) {
    match c
    case Top => ROOT in h && h[ROOT].left == hole
    case Frame(s, n, d, sib, up) =>
      && n != NIL && n != ROOT && n in h && h[n] == CellAt(s, d, hole, Ref(sib), Head(up))
      && n !in TNodes(sib) && n !in CNodes(up) && TNodes(sib) !! CNodes(up)
      && RepT(h, sib, n) && RepC(h, up, n)
  }

  ghost predicate Sentinels(h: Heap) {
    && NIL in h && h[NIL] == Cell(None, -MAX_TIME, -MAX_TIME, -MAX_TIME, false, NIL, NIL, h[NIL].parent)
    && ROOT in h && h[ROOT] == Cell(None, MAX_TIME, MAX_TIME, MAX_TIME, false, h[ROOT].left, NIL, NIL)
  }

  /** The whole structure, seen from a position. */
  ghost predicate Rep(h: Heap, c: Ctx, t: Tree) {
    && Sentinels(h) && CNodes(c) !! TNodes(t)
    && RepT(h, t, Head(c)) && RepC(h, c, Ref(t))
  }

  /** Moving the position up or down one link changes nothing. */
  lemma RepUp(h: Heap, c: Ctx, t: Tree)
    requires c.Frame?
    ensures Rep(h, c, t) <==> Rep(h, c.up, Mk(c.side, t, c.n, c.d, c.sib))
  {}

  lemma {:induction false} Refocus(h: Heap, c: Ctx, t: Tree)
    ensures Rep(h, c, t) <==> Rep(h, Top, Plug(c, t))
  {
    if c.Frame? {
      RepUp(h, c, t);
      Refocus(h, c.up, Mk(c.side, t, c.n, c.d, c.sib));
    }
  }

  /** Only the path's end hangs below the root sentinel. */
  lemma HeadIsRoot(h: Heap, c: Ctx, t: Tree)
    requires Rep(h, c, t) && Head(c) == ROOT
    ensures c.Top?
  {}

  lemma {:induction false} NodesInHeap(h: Heap, t: Tree, p: Ptr)
    requires RepT(h, t, p)
    ensures NIL !in TNodes(t) && ROOT !in TNodes(t) && TNodes(t) <= h.Keys
  {
    if t.Br? {
      NodesInHeap(h, t.l, t.n);
      NodesInHeap(h, t.r, t.n);
    }
  }

  lemma {:induction false} CtxNodesInHeap(h: Heap, c: Ctx, hole: Ptr)
    requires RepC(h, c, hole)
    ensures NIL !in CNodes(c) && ROOT !in CNodes(c) && CNodes(c) <= h.Keys
  {
    if c.Frame? {
      NodesInHeap(h, c.sib, c.n);
      CtxNodesInHeap(h, c.up, c.n);
    }
  }

  /** The records at the given addresses are the same in both memories. */
  ghost predicate Same(h: Heap, h': Heap, ns: set<Ptr>) {
    forall n :: n in ns && n in h ==> n in h' && h'[n] == h[n]
  }

  /** Nothing but max_high fields differs. */
  ghost predicate OnlyMax(h: Heap, h': Heap) {
    h'.Keys == h.Keys && forall n :: n in h ==> h'[n] == h[n].(maxHigh := h'[n].maxHigh)
  }

  lemma OnlyMaxStep(h: Heap, h': Heap, h'': Heap, x: Ptr)
    requires OnlyMax(h, h') && x in h' && x in h'' && h'' == h'[x := h'[x].(maxHigh := h''[x].maxHigh)]
    ensures OnlyMax(h, h'')
  {}

  /** Recording the maximum at the head of a path is the first step of recording it along the path. */
  lemma FixMaxStep(c: Ctx, t: Tree)
    requires c.Frame?
    ensures var d := c.d.(mh := Max(c.d.iv.high, Max(Mh(t), Mh(c.sib))));
            var up := Mk(c.side, t, c.n, d, c.sib);
            Plug(FixMax(c.up, Mh(up)), up) == Plug(FixMax(c, Mh(t)), t)
  {}

  /** A subtree none of whose nodes was written is still represented. */
  lemma {:induction false} FrameT(h: Heap, h': Heap, t: Tree, p: Ptr)
    requires RepT(h, t, p) && Same(h, h', TNodes(t))
    ensures RepT(h', t, p)
  {
    if t.Br? {
      FrameT(h, h', t.l, t.n);
      FrameT(h, h', t.r, t.n);
    }
  }

  lemma {:induction false} FrameC(h: Heap, h': Heap, c: Ctx, hole: Ptr)
    requires RepC(h, c, hole) && Same(h, h', CNodes(c) + {ROOT})
    ensures RepC(h', c, hole)
  {
    if c.Frame? {
      FrameT(h, h', c.sib, c.n);
      FrameC(h, h', c.up, c.n);
    }
  }

  /** Only the parent link of the subtree's root was written. */
  lemma FrameRoot(h: Heap, h': Heap, t: Tree, p: Ptr, q: Ptr)
    requires RepT(h, t, p) && Same(h, h', TNodes(t) - {Ref(t)})
    requires t.Br? ==> t.n in h' && h'[t.n] == h[t.n].(parent := q)
    ensures RepT(h', t, q)
  {
    if t.Br? {
      FrameT(h, h', t.l, t.n);
      FrameT(h, h', t.r, t.n);
    }
  }

  /** Only the head's link to the hole was written. */
  lemma FrameHead(h: Heap, h': Heap, c: Ctx, hole: Ptr, k: Ptr)
    requires RepC(h, c, hole) && Head(c) in h' && Same(h, h', CNodes(c) + {ROOT} - {Head(c)})
    requires h'[Head(c)] == h[Head(c)].SetKid(if c.Top? then Lft else c.side, k)
    ensures RepC(h', c, k)
  {
    if c.Frame? {
      CtxNodesInHeap(h, c, hole);
      FrameT(h, h', c.sib, c.n);
      FrameC(h, h', c.up, c.n);
    }
  }

  /** The pieces a rotation rearranges share no nodes. */
  lemma RotateParts(h: Heap, s: Side, c: Ctx, t: Tree)
    requires Rep(h, c, t) && t.Br? && Kid(t, Other(s)).Br?
    ensures var u := Kid(t, Other(s)); var a, b, e := Kid(t, s), Kid(u, s), Kid(u, Other(s));
            && RepT(h, a, t.n) && RepT(h, b, u.n) && RepT(h, e, u.n) && t.n in h && u.n in h
            && h[t.n] == CellAt(s, t.d, Ref(a), u.n, Head(c)) && h[u.n] == CellAt(s, u.d, Ref(b), Ref(e), t.n)
            && DisjointParts(t.n, u.n, a, b, e, c)
  {
    var u := Kid(t, Other(s));
    assert RepT(h, u, t.n);
    NodesInHeap(h, t, Head(c));
    CtxNodesInHeap(h, c, t.n);
  }

  ghost predicate DisjointParts(x: Ptr, y: Ptr, a: Tree, b: Tree, e: Tree, c: Ctx) {
    && x != y && x !in {NIL, ROOT} && y !in {NIL, ROOT}
    && Apart(x, a) && Apart(x, b) && Apart(x, e) && Apart(y, a) && Apart(y, b) && Apart(y, e)
    && x !in CNodes(c) && y !in CNodes(c) && NIL !in CNodes(c) && ROOT !in CNodes(c)
    && TNodes(a) !! TNodes(b) && TNodes(a) !! TNodes(e) && TNodes(b) !! TNodes(e)
    && TNodes(a) !! CNodes(c) && TNodes(b) !! CNodes(c) && TNodes(e) !! CNodes(c)
  }

  ghost predicate Apart(x: Ptr, t: Tree) {
    x !in TNodes(t) && NIL !in TNodes(t) && ROOT !in TNodes(t)
  }

  /** Memory in which the two records of a rotation are linked the other way round. */
  lemma RotatedRep(h: Heap, s: Side, c: Ctx, t: Tree)
    requires t.Br? && Kid(t, Other(s)).Br?
    requires var u := Kid(t, Other(s)); var a, b, e := Kid(t, s), Kid(u, s), Kid(u, Other(s));
             && Sentinels(h) && RepT(h, a, t.n) && RepT(h, b, t.n) && RepT(h, e, u.n) && RepC(h, c, u.n)
             && t.n in h && u.n in h && DisjointParts(t.n, u.n, a, b, e, c)
             && h[t.n] == CellAt(s, Kid(Rot(s, t), s).d, Ref(a), Ref(b), u.n)
             && h[u.n] == CellAt(s, Rot(s, t).d, t.n, Ref(e), Head(c))
    ensures Rep(h, c, Rot(s, t))
  {
    var u := Kid(t, Other(s));
    var a, b, e := Kid(t, s), Kid(u, s), Kid(u, Other(s));
    RotParts(s, t);
    TwoRep(h, s, c, a, t.n, Kid(Rot(s, t), s).d, b, u.n, Rot(s, t).d, e);
  }

  lemma Between(a: set<Ptr>, b: set<Ptr>, x: Ptr, low: set<Ptr>, y: Ptr, e: set<Ptr>, c: set<Ptr>)
    requires low == a + b + {x} && x != y && y !in a && y !in b && x !in e && a !! e && b !! e
    requires a !! c && b !! c && e !! c && x !in c && y !in c
    ensures y !in low && low !! e && c !! low + e + {y}
  {}

  /** A node below another one on the same side, with the three subtrees beside them. */
  lemma TwoRep(h: Heap, s: Side, c: Ctx, a: Tree, x: Ptr, dx: Data, b: Tree, y: Ptr, dy: Data, e: Tree)
    requires Sentinels(h) && RepT(h, a, x) && RepT(h, b, x) && RepT(h, e, y) && RepC(h, c, y)
    requires x in h && y in h && DisjointParts(x, y, a, b, e, c)
    requires h[x] == CellAt(s, dx, Ref(a), Ref(b), y) && h[y] == CellAt(s, dy, x, Ref(e), Head(c))
    ensures Rep(h, c, Mk(s, Mk(s, a, x, dx, b), y, dy, e))
  {
    var low := Mk(s, a, x, dx, b);
    MkRep(h, s, a, x, dx, b, y);
    Between(TNodes(a), TNodes(b), x, TNodes(low), y, TNodes(e), CNodes(c));
    MkRep(h, s, low, y, dy, e, Head(c));
  }

  /** A node and its two subtrees, on either side. */
  lemma MkRep(h: Heap, s: Side, near: Tree, n: Ptr, d: Data, far: Tree, p: Ptr)
    requires n != NIL && n != ROOT && n in h && h[n] == CellAt(s, d, Ref(near), Ref(far), p)
    requires n !in TNodes(near) && n !in TNodes(far) && TNodes(near) !! TNodes(far)
    requires RepT(h, near, n) && RepT(h, far, n)
    ensures RepT(h, Mk(s, near, n, d, far), p) && TNodes(Mk(s, near, n, d, far)) == TNodes(near) + TNodes(far) + {n}
  {}

  /** Lines 180-186 and 183: the maximum a node should record. */
  lemma RefMax(h: Heap, t: Tree, p: Ptr)
    requires Sentinels(h) && RepT(h, t, p)
    ensures Ref(t) in h && h[Ref(t)].maxHigh == Mh(t) && h[Ref(t)].red == IsRed(t)
  {}

  lemma NilIsLeaf(h: Heap, t: Tree, p: Ptr)
    requires RepT(h, t, p)
    ensures Ref(t) == NIL <==> t.Leaf?
    ensures t.Br? ==> t.n in h && h[t.n].parent == p
  {}

  /** h' is h after the four records of a rotation at x were rewritten. */
  ghost predicate RotatedHeap(h: Heap, h': Heap, s: Side, x: Ptr)
    requires RotateSafe(h, s, x)
  {
    var y, p := h[x].Kid(Other(s)), h[x].parent;
    var k := h[y].Kid(s);
    var mx := Max(h[h[x].Kid(s)].maxHigh, Max(h[k].maxHigh, h[x].high));
    && h'.Keys == h.Keys
    && h'[x] == h[x].SetKid(Other(s), k).(parent := y, maxHigh := mx)
    && h'[y] == h[y].SetKid(s, x).(parent := p, maxHigh := Max(mx, Max(h[h[y].Kid(Other(s))].maxHigh, h[y].high)))
    && h'[p] == h[p].SetKid(if h[p].left == x then Lft else Rgt, y)
    && (k != NIL ==> h'[k] == h[k].(parent := x))
    && forall n :: n in h && n !in {x, y, p} && (n != k || k == NIL) ==> h'[n] == h[n]
  }

  /** The addresses a rotation at x follows are all valid and distinct. */
  ghost predicate RotateSafe(h: Heap, s: Side, x: Ptr) {
    && x in h && h[x].Kid(s) in h && h[x].Kid(Other(s)) in h && h[x].parent in h
    && var y, p := h[x].Kid(Other(s)), h[x].parent;
       && h[y].Kid(s) in h && h[y].Kid(Other(s)) in h
       && x != y && x != p && y != p && NIL !in {x, y, p} && h[y].Kid(s) !in {x, y, p}
       && h[x].Kid(s) !in {x, y, p} && h[y].Kid(Other(s)) !in {x, y, p}
       && (h[y].Kid(s) != NIL ==> h[y].Kid(s) != h[x].Kid(s) && h[y].Kid(s) != h[y].Kid(Other(s)))
  }

  lemma RotateIsSafe(h: Heap, s: Side, c: Ctx, t: Tree)
    requires Rep(h, c, t) && t.Br? && Kid(t, Other(s)).Br?
    ensures RotateSafe(h, s, t.n)
  {
    RotateParts(h, s, c, t);
    var u := Kid(t, Other(s));
    RefMax(h, Kid(t, s), t.n);
    RefMax(h, Kid(u, s), u.n);
    RefMax(h, Kid(u, Other(s)), u.n);
    if c.Frame? { CtxNodesInHeap(h, c, t.n); }
  }

  /** Addresses away from the rotation keep their records. */
  lemma SameOutside(h: Heap, h': Heap, s: Side, x: Ptr, ns: set<Ptr>)
    requires RotateSafe(h, s, x) && RotatedHeap(h, h', s, x)
    requires var y := h[x].Kid(Other(s));
             x !in ns && y !in ns && h[x].parent !in ns && (h[y].Kid(s) == NIL || h[y].Kid(s) !in ns)
    ensures Same(h, h', ns)
  {}

  /** The pieces of a rotation survive it. */
  lemma RotateFrames(h: Heap, h': Heap, s: Side, c: Ctx, x: Ptr, y: Ptr, a: Tree, b: Tree, e: Tree)
    requires RotateSafe(h, s, x) && RotatedHeap(h, h', s, x) && DisjointParts(x, y, a, b, e, c)
    requires y == h[x].Kid(Other(s)) && Ref(b) == h[y].Kid(s) && Head(c) == h[x].parent
    requires RepT(h, a, x) && RepT(h, b, y) && RepT(h, e, y) && RepC(h, c, x)
    ensures RepT(h', a, x) && RepT(h', b, x) && RepT(h', e, y) && RepC(h', c, y)
  {
    RefsInNodes(b, c);
    assert RepT(h', a, x) by { SameOutside(h, h', s, x, TNodes(a)); FrameT(h, h', a, x); }
    assert RepT(h', e, y) by { SameOutside(h, h', s, x, TNodes(e)); FrameT(h, h', e, y); }
    assert RepT(h', b, x) by { SameOutside(h, h', s, x, TNodes(b) - {Ref(b)}); FrameRoot(h, h', b, y, x); }
    assert RepC(h', c, y) by {
      SameOutside(h, h', s, x, CNodes(c) + {ROOT} - {Head(c)});
      HeadKid(h, c, x);
      FrameHead(h, h', c, x, y);
    }
  }

  lemma RefsInNodes(t: Tree, c: Ctx)
    ensures t.Br? ==> Ref(t) in TNodes(t)
    ensures c.Frame? ==> Head(c) in CNodes(c)
  {}

  /** Rewriting the links is rotating the tree. */
  lemma RotatedHeapIsRot(h: Heap, h': Heap, s: Side, c: Ctx, t: Tree)
    requires Rep(h, c, t) && t.Br? && Kid(t, Other(s)).Br?
    requires RotateSafe(h, s, t.n) && RotatedHeap(h, h', s, t.n)
    ensures Rep(h', c, Rot(s, t)) && NIL in h && h'[NIL] == h[NIL]
  {
    var u := Kid(t, Other(s));
    var a, b, e := Kid(t, s), Kid(u, s), Kid(u, Other(s));
    RotateParts(h, s, c, t);
    RefMax(h, a, t.n);
    RefMax(h, b, u.n);
    RefMax(h, e, u.n);
    RotateFrames(h, h', s, c, t.n, u.n, a, b, e);
    RotatedRep(h', s, c, t);
  }

  lemma HeadKid(h: Heap, c: Ctx, hole: Ptr)
    requires RepC(h, c, hole) && hole != NIL && hole !in CNodes(c)
    ensures Head(c) in h && (h[Head(c)].left == hole <==> c.Top? || c.side == Lft)
  {
    if c.Frame? && c.sib.Br? { assert c.sib.n in TNodes(c.sib); }
  }

  /** Moving the position to the sibling subtree changes nothing. */
  lemma RepSide(h: Heap, c: Ctx, t: Tree)
    requires c.Frame?
    ensures Rep(h, c, t) <==> Rep(h, Frame(Other(c.side), c.n, c.d, t, c.up), c.sib)
  {
    RepUp(h, c, t);
    RepUp(h, Frame(Other(c.side), c.n, c.d, t, c.up), c.sib);
  }

  /** What can be read at a position. */
  lemma Look(h: Heap, c: Ctx, t: Tree)
    requires Rep(h, c, t)
    ensures Head(c) in h && h[Head(c)].red == HeadRed(c)
    ensures Ref(t) in h && h[Ref(t)].red == IsRed(t) && h[Ref(t)].maxHigh == Mh(t)
    ensures t.Br? ==> h[t.n] == CellOf(t.d, Ref(t.l), Ref(t.r), Head(c)) && t.n !in {NIL, ROOT}
    ensures t.Br? ==> (Ref(t.l) == NIL <==> t.l.Leaf?) && (Ref(t.r) == NIL <==> t.r.Leaf?)
    ensures t.Br? ==> t.n !in CNodes(c) && (h[Head(c)].left == t.n <==> c.Top? || c.side == Lft)
    ensures c.Frame? ==> h[c.n] == CellAt(c.side, c.d, Ref(t), Ref(c.sib), Head(c.up))
    ensures c.Frame? ==> Ref(c.sib) in h && h[Ref(c.sib)].red == IsRed(c.sib) && h[Ref(c.sib)].maxHigh == Mh(c.sib)
  {
    RefsInNodes(t, c);
    if t.Br? {
      HeadKid(h, c, t.n);
      assert RepT(h, t.l, t.n) && RepT(h, t.r, t.n);
    }
  }

  /** Writing colour and maximum of one node. */
  lemma WriteRep(h: Heap, c: Ctx, t: Tree, d: Data)
    requires Rep(h, c, t) && t.Br? && d.iv == t.d.iv
    ensures t.n in h && Rep(h[t.n := h[t.n].(red := d.red, maxHigh := d.mh)], c, t.(d := d))
  {
    var h' := h[t.n := h[t.n].(red := d.red, maxHigh := d.mh)];
    NodesInHeap(h, t, Head(c));
    RefsInNodes(t, c);
    FrameT(h, h', t.l, t.n);
    FrameT(h, h', t.r, t.n);
    FrameC(h, h', c, t.n);
    assert TNodes(t.(d := d)) == TNodes(t);
  }

  /** A new node hung into an empty place. */
  lemma AttachRep(h: Heap, h': Heap, c: Ctx, z: Ptr, d: Data)
    requires Rep(h, c, Leaf) && z !in h && Head(c) in h
    requires h' == h[z := CellOf(d, NIL, NIL, Head(c))]
                    [Head(c) := h[Head(c)].SetKid(if c.Top? then Lft else c.side, z)]
    ensures Rep(h', c, Br(Leaf, z, d, Leaf))
  {
    CtxNodesInHeap(h, c, NIL);
    RefsInNodes(Leaf, c);
    FrameHead(h, h', c, NIL, z);
  }

  /** Going down on side s keeps smaller-or-equal keys before and greater keys after the hole. */
  lemma DescendBounds(c: Ctx, t: Tree, s: Side, key: Time)
    requires t.Br? && Sorted(Row(c, t)) && s == (if t.d.iv.low > key then Lft else Rgt)
    requires forall i :: i in Before(c) ==> i.iv.low <= key
    requires forall i :: i in After(c) ==> key < i.iv.low
    ensures var c' := Frame(s, t.n, t.d, Kid(t, Other(s)), c);
            && (forall i :: i in Before(c') ==> i.iv.low <= key)
            && (forall i :: i in After(c') ==> key < i.iv.low)
  {
    var r, a, b := Row(c, t), InOrder(t.l), InOrder(t.r);
    var k := |Before(c)| + |a|;
    assert r[k] == Item(t.n, t.d.iv);
    forall i | i in a ensures i.iv.low <= t.d.iv.low {
      var j :| 0 <= j < |a| && a[j] == i;
      assert r[|Before(c)| + j] == i;
    }
    forall i | i in b ensures t.d.iv.low <= i.iv.low {
      var j :| 0 <= j < |b| && b[j] == i;
      assert r[k + 1 + j] == i;
    }
  }

  /** The test of line 174 picks the side of the hole. */
  lemma AttachSide(h: Heap, c: Ctx, key: Time)
    requires Rep(h, c, Leaf)
    requires forall i :: i in Before(c) ==> i.iv.low <= key
    requires forall i :: i in After(c) ==> key < i.iv.low
    ensures Head(c) in h && (Head(c) == ROOT <==> c.Top?)
    ensures c.Frame? ==> (h[c.n].key > key <==> c.side == Lft)
  {
    if c.Frame? {
      var i := Item(c.n, c.d.iv);
      assert c.side == Lft ==> i in After(c);
      assert c.side == Rgt ==> i in Before(c);
    }
  }

  /** The node at the bottom of a path, the one the root sentinel points to. */
  ghost function Bottom(c: Ctx): Ptr
    requires c.Frame?
  {
    if c.up.Top? then c.n else Bottom(c.up)
  }

  lemma {:induction false} RootRef(h: Heap, c: Ctx, t: Tree)
    requires Rep(h, c, t)
    ensures ROOT in h && h[ROOT].left == if c.Top? then Ref(t) else Bottom(c)
    ensures c.Frame? ==> Bottom(c) in CNodes(c) && Bottom(c) != Ref(t)
    decreases c
  {
    RefsInNodes(t, c);
    if c.Frame? {
      CtxNodesInHeap(h, c, Ref(t));
      RepUp(h, c, t);
      RootRef(h, c.up, Mk(c.side, t, c.n, c.d, c.sib));
    }
  }

  lemma SiblingIsThere(c: Ctx, t: Tree)
    requires DeleteInv(c, t) && c.Frame?
    ensures c.sib.Br?
  {}

  /** Mk seen from either child. */
  lemma MkOther(s: Side, a: Tree, n: Ptr, d: Data, b: Tree)
    ensures Mk(Other(s), b, n, d, a) == Mk(s, a, n, d, b)
  {}

  lemma SortedInsert(before: seq<Item>, i: Item, after: seq<Item>)
    requires Sorted(before + after)
    requires forall j :: j in before ==> j.iv.low <= i.iv.low
    requires forall j :: j in after ==> i.iv.low < j.iv.low
    ensures Sorted(before + [i] + after)
  {
    var a, b := before + after, before + [i] + after;
    forall x, y | 0 <= x < y < |b| ensures b[x].iv.low <= b[y].iv.low {
      var k := |before|;
      if x < k { assert b[x] == a[x] == before[x]; }
      if x > k { assert b[x] == a[x - 1] == after[x - k - 1]; }
      if y < k { assert b[y] == a[y] == before[y]; }
      if y > k { assert b[y] == a[y - 1] == after[y - k - 1]; }
    }
  }

  /** A red leaf hung into a valid tree starts the recolour loop. */
  lemma ReadyToInsert(c: Ctx, z: Ptr, iv: Interval)
    requires TreeOk(Plug(c, Leaf))
    ensures InsertInv(FixMax(c, iv.high), Br(Leaf, z, Data(iv, true, iv.high), Leaf))
  {
    Disassemble(c, Leaf);
    MaxOkCSibs(c, Mh(Leaf));
    FixMaxKeeps(c, iv.high, 0);
  }

  /** Recording maxima along the path of a valid tree leaves the row alone. */
  lemma FixMaxRow(c: Ctx, mh: Time)
    requires TreeOk(Plug(c, Leaf))
    ensures Before(FixMax(c, mh)) == Before(c) && After(FixMax(c, mh)) == After(c)
  {
    Disassemble(c, Leaf);
    MaxOkCSibs(c, Mh(Leaf));
    FixMaxKeeps(c, mh, 0);
  }

  lemma InsertedRow(c: Ctx, z: Ptr, iv: Interval)
    requires TreeOk(Plug(c, Leaf))
    requires forall i :: i in Before(c) ==> i.iv.low <= iv.low
    requires forall i :: i in After(c) ==> iv.low < i.iv.low
    ensures var row := Row(FixMax(c, iv.high), Br(Leaf, z, Data(iv, true, iv.high), Leaf));
            row == Before(c) + [Item(z, iv)] + After(c) && Sorted(row)
    ensures InOrder(Plug(c, Leaf)) == Before(c) + After(c)
  {
    LeafRow(c);
    FixMaxRow(c, iv.high);
    NewRow(FixMax(c, iv.high), Br(Leaf, z, Data(iv, true, iv.high), Leaf), Item(z, iv));
    SortedInsert(Before(c), Item(z, iv), After(c));
  }

  lemma LeafRow(c: Ctx)
    ensures InOrder(Plug(c, Leaf)) == Before(c) + After(c)
  {
    PlugInOrder(c, Leaf);
    assert Row(c, Leaf) == Before(c) + After(c);
  }

  lemma NewRow(c: Ctx, t: Tree, x: Item)
    requires t.Br? && t.l.Leaf? && t.r.Leaf? && x == Item(t.n, t.d.iv)
    ensures Row(c, t) == Before(c) + [x] + After(c)
  {
    assert InOrder(t) == [x];
  }

  /** Painting the top node black ends insertion in a valid tree. */
  lemma Blackened(c: Ctx, t: Tree)
    requires InsertInv(c, t) && !HeadRed(c) && Sorted(Row(c, t))
    ensures Plug(c, t).Br? && TreeOk(Paint(Plug(c, t), false))
    ensures InOrder(Paint(Plug(c, t), false)) == Row(c, t)
  {
    PlugColors(c, t);
    PlugMax(c, t);
    PlugInOrder(c, t);
    assert Item(t.n, t.d.iv) in Row(c, t);
    PaintFacts(Plug(c, t), false);
  }

  lemma {:induction false} BottomIsBlack(h: Heap, c: Ctx, hole: Ptr)
    requires RepC(h, c, hole) && RootBlack(c) && c.Frame?
    ensures Bottom(c) in h && !h[Bottom(c)].red
  {
    if c.up.Frame? { BottomIsBlack(h, c.up, c.n); }
  }

  /** Where the cached top node lies while deleteFixup works at c. */
  ghost predicate TopKnown(c: Ctx, top: Ptr)
    requires c.Frame?
  {
    (top == c.n && (c.up.Top? || c.d.red)) || (c.up.Frame? && Bottom(c.up) == top)
  }

  /** What deleteFixup's loop maintains: either work is left at a short subtree, or the tree
      is already valid and the cached top node is black. */
  ghost predicate FixupState(h: Heap, x: Ptr, top: Ptr, c: Ctx, t: Tree, done: bool) {
    && Rep(h, c, t)
    && if done then
         && x == top && top in h && !h[top].red
         && ColorOk(t) && Balanced(t) && CtxOk(c, Height(t)) && RootBlack(c)
         && !(HeadRed(c) && IsRed(t)) && (c.Top? ==> !IsRed(t)) && MaxOk(t) && MaxOkC(c, Mh(t))
       else
         && DeleteInv(c, t) && x == Ref(t) && x in h && h[x].parent == Head(c)
         && ((x == top && (c.Top? || IsRed(t))) || (c.Frame? && Bottom(c) == top))
  }

  lemma LastRotationTop(h: Heap, c: Ctx, t: Tree, top: Ptr)
    requires DeleteInv(c, t) && c.Frame? && !IsRed(t) && !IsRed(c.sib) && TopKnown(c, top)
    requires c.sib.Br? && (IsRed(c.sib.l) || IsRed(c.sib.r)) && Rep(h, c.up, LastRotation(c, t))
    ensures FixupState(h, top, top, c.up, LastRotation(c, t), true)
  {
    var r := LastRotation(c, t);
    LastRotationKeeps(c, t);
    if c.up.Frame? && Bottom(c.up) == top {
      BottomIsBlack(h, c.up, r.n);
    } else {
      assert RepT(h, Kid(r, c.side), r.n);
    }
    if c.up.Frame? { RootBlackUp(c); }
  }

  lemma RootBlackUp(c: Ctx)
    requires c.Frame? && RootBlack(c)
    ensures RootBlack(c.up)
  {}

  lemma NephewsInHeap(h: Heap, c: Ctx, t: Tree)
    requires Rep(h, c, t) && t.Br?
    ensures Ref(t.l) in h && h[Ref(t.l)].red == IsRed(t.l)
    ensures Ref(t.r) in h && h[Ref(t.r)].red == IsRed(t.r)
  {
    RefMax(h, t.l, t.n);
    RefMax(h, t.r, t.n);
  }

  /** The sibling of a short subtree is a real node, so the test at line 330 finds the side. */
  lemma NotBoth(h: Heap, c: Ctx, t: Tree)
    requires Rep(h, c, t) && c.Frame? && c.sib.Br?
    ensures c.n in h && (h[c.n].left == Ref(t) <==> c.side == Lft)
  {
    RefsInNodes(t, c);
    RefsInNodes(c.sib, c);
    NodesInHeap(h, c.sib, c.n);
  }

  // ---- deletion: taking a node out of the links --------------------------------------

  /** The side on which a path's hole hangs; below the root sentinel that is the left. */
  function HoleSide(c: Ctx): Side {
    if c.Top? then Lft else c.side
  }

  /** Lines 417-428: the only child takes the node's place and learns its parent. */
  lemma SpliceRep(h: Heap, h': Heap, c: Ctx, t: Tree, k: Tree)
    requires Rep(h, c, t) && OnlyChild(t, k) && Ref(k) in h && Head(c) in h
    requires h' == h[Ref(k) := h[Ref(k)].(parent := Head(c))][Head(c) := h[Head(c)].SetKid(HoleSide(c), Ref(k))]
    ensures Rep(h', c, k) && h'[Ref(k)].parent == Head(c)
    ensures t.n in h && h'[t.n] == h[t.n] && t.n !in CNodes(c) && t.n !in TNodes(k)
  {
    RefsInNodes(k, c);
    RefsInNodes(t, c);
    NodesInHeap(h, t, Head(c));
    CtxNodesInHeap(h, c, t.n);
    assert RepT(h, k, t.n) && TNodes(k) <= TNodes(t);
    FrameRoot(h, h', k, t.n, Head(c));
    FrameHead(h, h', c, t.n, Ref(k));
  }

  lemma SpliceAddresses(h: Heap, c: Ctx, t: Tree, k: Tree)
    requires Rep(h, c, t) && OnlyChild(t, k)
    ensures Ref(k) in h && Head(c) in h && Ref(k) != Head(c) && t.n != Ref(k) && t.n != Head(c)
    ensures Head(c) == ROOT <==> c.Top?
  {
    RefsInNodes(k, c);
    NodesInHeap(h, t, Head(c));
    CtxNodesInHeap(h, c, t.n);
  }

  /** Lines 433-441: record y takes over the place of record z. */
  lemma ReplaceRep(h: Heap, h': Heap, c: Ctx, t: Tree, y: Ptr, d: Data)
    requires Rep(h, c, t) && t.Br? && t.l.Br? && y in h && y !in {NIL, ROOT}
    requires y !in TNodes(t) && y !in CNodes(c) && Ref(t.r) in h && Head(c) in h && t.l.n in h
    requires h' == h[y := CellOf(d, t.l.n, Ref(t.r), Head(c))]
                    [Ref(t.r) := h[Ref(t.r)].(parent := y)][t.l.n := h[t.l.n].(parent := y)]
                    [Head(c) := h[Head(c)].SetKid(HoleSide(c), y)]
    ensures Rep(h', c, Br(t.l, y, d, t.r))
  {
    RefsInNodes(t.l, c);
    RefsInNodes(t.r, c);
    NodesInHeap(h, t, Head(c));
    CtxNodesInHeap(h, c, t.n);
    assert RepT(h', t.l, y) by { FrameRoot(h, h', t.l, t.n, y); }
    assert RepT(h', t.r, y) by { FrameRoot(h, h', t.r, t.n, y); }
    assert RepC(h', c, y) by { FrameHead(h, h', c, t.n, y); }
  }

  lemma TransplantAddresses(h: Heap, c: Ctx, t: Tree, y: Ptr)
    requires Rep(h, c, t) && t.Br? && t.l.Br? && y !in TNodes(t) && y !in CNodes(c) && y !in {NIL, ROOT}
    ensures Head(c) in h && t.n != y && t.l.n in h
    ensures var l, r, p := t.l.n, Ref(t.r), Head(c);
            && l != r && l != p && r != p && y != l && y != r && y != p
            && t.n != l && t.n != r && t.n != p && l != NIL && p != NIL
  {
    RefsInNodes(t.l, c);
    RefsInNodes(t.r, c);
    NodesInHeap(h, t, Head(c));
    CtxNodesInHeap(h, c, t.n);
  }

  /** The nodes along a spine and below it are those of the whole, without the leftmost. */
  lemma {:induction false} SpineNodes(t: Tree, c: Ctx)
    requires t.Br?
    ensures CNodes(Spine(t, c)) + TNodes(Least(t).r) == CNodes(c) + TNodes(WithoutLeast(t))
  {
    if t.l.Br? { SpineNodes(t.l, Frame(Lft, t.n, t.d, t.r, c)); }
  }

  /** n is one of the nodes passed on the way up. */
  ghost predicate OnPath(c: Ctx, n: Ptr) {
    c.Frame? && (c.n == n || OnPath(c.up, n))
  }

  lemma {:induction false} OnPathIsNode(c: Ctx, n: Ptr)
    requires OnPath(c, n)
    ensures n in CNodes(c)
  {
    if c.n != n { OnPathIsNode(c.up, n); }
  }

  lemma {:induction false} PaintOnRep(h: Heap, c: Ctx, hole: Ptr, n: Ptr, red: bool)
    requires RepC(h, c, hole) && OnPath(c, n)
    ensures n in h && RepC(h[n := h[n].(red := red)], PaintOn(c, n, red), hole)
    ensures CNodes(PaintOn(c, n, red)) == CNodes(c)
  {
    OnPathIsNode(c, n);
    CtxNodesInHeap(h, c, hole);
    var h' := h[n := h[n].(red := red)];
    if c.n == n {
      FrameT(h, h', c.sib, c.n);
      FrameC(h, h', c.up, c.n);
    } else {
      OnPathIsNode(c.up, n);
      PaintOnRep(h, c.up, c.n, n, red);
      FrameT(h, h', c.sib, c.n);
    }
  }

  lemma PaintOnWhole(h: Heap, c: Ctx, t: Tree, n: Ptr, red: bool)
    requires Rep(h, c, t) && OnPath(c, n)
    ensures n in h && Rep(h[n := h[n].(red := red)], PaintOn(c, n, red), t)
  {
    PaintOnRep(h, c, Ref(t), n, red);
    OnPathIsNode(c, n);
    CtxNodesInHeap(h, c, Ref(t));
    FrameT(h, h[n := h[n].(red := red)], t, Head(c));
    HeadPaintOn(c, n, red);
  }

  lemma HeadPaintOn(c: Ctx, n: Ptr, red: bool)
    ensures Head(PaintOn(c, n, red)) == Head(c)
  {}

  lemma {:induction false} SpineOnPath(t: Tree, c: Ctx, n: Ptr)
    requires t.Br? && OnPath(c, n)
    ensures OnPath(Spine(t, c), n)
  {
    if t.l.Br? { SpineOnPath(t.l, Frame(Lft, t.n, t.d, t.r, c), n); }
  }

  lemma {:induction false} FixMaxOnPath(c: Ctx, n: Ptr, mh: Time)
    ensures OnPath(FixMax(c, mh), n) <==> OnPath(c, n)
    ensures Head(FixMax(c, mh)) == Head(c)
  {
    if c.Frame? { FixMaxOnPath(c.up, n, Max(c.d.iv.high, Max(mh, Mh(c.sib)))); }
  }

  /** Walking down the spine and back changes nothing, with or without the leftmost node. */
  lemma SpineRep(h: Heap, t: Tree, c: Ctx)
    requires t.Br?
    ensures Rep(h, Spine(t, c), Least(t)) <==> Rep(h, c, t)
    ensures Rep(h, Spine(t, c), Least(t).r) <==> Rep(h, c, WithoutLeast(t))
  {
    SpinePlug(t, c);
    Refocus(h, Spine(t, c), Least(t));
    Refocus(h, Spine(t, c), Least(t).r);
    Refocus(h, c, t);
    Refocus(h, c, WithoutLeast(t));
  }

  lemma {:induction false} LeastAvoided(h: Heap, t: Tree, p: Ptr)
    requires RepT(h, t, p) && t.Br?
    ensures Avoids(t, Least(t).n) && Least(t).n in TNodes(t)
  {
    if t.l.Br? { LeastAvoided(h, t.l, t.n); }
  }

  /** The head of a spine: the base when the spine is empty, otherwise a node of the subtree. */
  lemma {:induction false} SpineHead(t: Tree, c: Ctx, c': Ctx)
    requires t.Br?
    ensures t.l.Leaf? ==> Spine(t, c) == c
    ensures t.l.Br? ==> Head(Spine(t, c)) == Head(Spine(t, c')) && WithoutLeast(t).Br?
  {
    if t.l.Br? {
      SpineHead(t.l, Frame(Lft, t.n, t.d, t.r, c), Frame(Lft, t.n, t.d, t.r, c'));
    }
  }

  lemma {:induction false} Focus(t: Tree, n: Ptr, up: Ctx) returns (c: Ctx, s: Tree)
    requires n in TNodes(t)
    ensures Plug(c, s) == Plug(up, t) && s.Br? && s.n == n
  {
    if t.n == n {
      c, s := up, t;
    } else if n in TNodes(t.l) {
      c, s := Focus(t.l, n, Frame(Lft, t.n, t.d, t.r, up));
    } else {
      c, s := Focus(t.r, n, Frame(Rgt, t.n, t.d, t.l, up));
    }
  }

  // ---- the row of entries names each node once ---------------------------------------

  ghost predicate DistinctNodes(row: seq<Item>) {
    forall i, j :: 0 <= i < j < |row| ==> row[i].n != row[j].n
  }

  lemma {:induction false} RowNodes(t: Tree)
    ensures forall i :: i in InOrder(t) ==> i.n in TNodes(t)
    ensures forall n :: n in TNodes(t) ==> exists i :: i in InOrder(t) && i.n == n
  {
    if t.Br? {
      RowNodes(t.l);
      RowNodes(t.r);
      var m := Item(t.n, t.d.iv);
      assert m in InOrder(t);
      forall n | n in TNodes(t) ensures exists i :: i in InOrder(t) && i.n == n {
        if n in TNodes(t.l) {
          var i :| i in InOrder(t.l) && i.n == n;
          assert i in InOrder(t);
        } else if n in TNodes(t.r) {
          var i :| i in InOrder(t.r) && i.n == n;
          assert i in InOrder(t);
        }
      }
    }
  }

  lemma {:induction false} RepDistinct(h: Heap, t: Tree, p: Ptr)
    requires RepT(h, t, p)
    ensures DistinctNodes(InOrder(t))
  {
    if t.Br? {
      RepDistinct(h, t.l, t.n);
      RepDistinct(h, t.r, t.n);
      RowNodes(t.l);
      RowNodes(t.r);
      DistinctJoin(InOrder(t.l), Item(t.n, t.d.iv), InOrder(t.r), TNodes(t.l), TNodes(t.r));
    }
  }

  lemma DistinctJoin(a: seq<Item>, x: Item, b: seq<Item>, l: set<Ptr>, r: set<Ptr>)
    requires DistinctNodes(a) && DistinctNodes(b) && l !! r && x.n !in l && x.n !in r
    requires (forall i :: i in a ==> i.n in l) && (forall i :: i in b ==> i.n in r)
    ensures DistinctNodes(a + [x] + b)
  {
    var row := a + [x] + b;
    forall i, j | 0 <= i < j < |row| ensures row[i].n != row[j].n {
      if i < |a| { assert row[i] == a[i] && row[i] in a; }
      if j < |a| { assert row[j] == a[j]; }
      if i > |a| { assert row[i] == b[i - |a| - 1]; }
      if j > |a| { assert row[j] == b[j - |a| - 1] && row[j] in b; }
    }
  }

  /** A node that left the row has left the tree. */
  lemma DroppedNode(row: seq<Item>, t: Tree, x: Item, k: nat)
    requires DistinctNodes(row) && Drops(row, InOrder(t), x, k)
    ensures x.n !in TNodes(t)
  {
    RowNodes(t);
    forall i | i in InOrder(t) ensures i.n != x.n {
      var j :| 0 <= j < |InOrder(t)| && InOrder(t)[j] == i;
      assert i == if j < k then row[j] else row[j + 1];
    }
  }

  function Addresses(row: seq<Item>): (a: set<Ptr>) {
    set i | i in row :: i.n
  }

  lemma AddressesOf(t: Tree)
    ensures TNodes(t) == Addresses(InOrder(t))
  {
    RowNodes(t);
  }

  lemma InsertedAddresses(t: Tree, t': Tree, before: seq<Item>, x: Item, after: seq<Item>)
    requires InOrder(t) == before + after && InOrder(t') == before + [x] + after
    ensures TNodes(t') == TNodes(t) + {x.n}
  {
    AddressesOf(t);
    AddressesOf(t');
    assert forall i :: i in InOrder(t') <==> i in before || i == x || i in after;
    assert forall i :: i in InOrder(t) <==> i in before || i in after;
  }

  lemma DroppedAddresses(t: Tree, t': Tree, x: Item, k: nat)
    requires DistinctNodes(InOrder(t)) && Drops(InOrder(t), InOrder(t'), x, k)
    ensures TNodes(t') == TNodes(t) - {x.n}
  {
    AddressesOf(t);
    AddressesOf(t');
    DroppedNode(InOrder(t), t', x, k);
    DropsMembers(InOrder(t), InOrder(t'), x, k);
  }

  lemma DropsMembers(row: seq<Item>, row': seq<Item>, x: Item, k: nat)
    requires Drops(row, row', x, k)
    ensures forall i :: i in row <==> i in row' || i == x
  {
    assert row == row[..k] + [x] + row[k + 1..];
    assert row' == row[..k] + row[k + 1..];
  }

  lemma SameNodeSameItem(row: seq<Item>, a: Item, b: Item)
    requires DistinctNodes(row) && a in row && b in row && a.n == b.n
    ensures a == b
  {
    var i :| 0 <= i < |row| && row[i] == a;
    var j :| 0 <= j < |row| && row[j] == b;
  }

  lemma HeirHead(c: Ctx, z: Tree, red: bool, red': bool, mh: Time)
    requires z.Br? && z.r.Br?
    ensures Head(FixMax(Spine(z.r, Heir(c, z, red')), mh)) == Head(Spine(z.r, Heir(c, z, red)))
  {
    FixMaxOnPath(Spine(z.r, Heir(c, z, red')), 0, mh);
    SpineHead(z.r, Heir(c, z, red), Heir(c, z, red'));
  }

  /** Freeing a record outside the tree. */
  lemma FreeRep(h: Heap, t: Tree, z: Ptr)
    requires Rep(h, Top, t) && z !in TNodes(t) && z !in {NIL, ROOT}
    ensures Rep(h - {z}, Top, t)
  {
    FrameT(h, h - {z}, t, ROOT);
  }

  /** Painting the heir after the maxima were recomputed gives the path of SpliceSuccessor. */
  lemma PaintHeir(c: Ctx, z: Tree, wasRed: bool, red: bool, mh: Time)
    requires z.Br? && z.r.Br? && Avoids(z.r, Least(z.r).n)
    ensures var y := Least(z.r).n; var p := FixMax(Spine(z.r, Heir(c, z, wasRed)), mh);
            OnPath(p, y) && PaintOn(p, y, red) == FixMax(Spine(z.r, Heir(c, z, red)), mh)
  {
    var y, f := Least(z.r).n, Heir(c, z, wasRed);
    SpineOnPath(z.r, f, y);
    FixMaxOnPath(Spine(z.r, f), y, mh);
    PaintOnFixMax(Spine(z.r, f), y, red, mh);
    PaintOnSpine(z.r, f, y, red);
  }

  /** Lines 114-125, statement by statement: the inner subtree moves over, y hangs below p. */
  method RotateLinks(h0: Heap, s: Side, x: Ptr) returns (h: Heap)
    requires RotateSafe(h0, s, x)
    ensures var y, p := h0[x].Kid(Other(s)), h0[x].parent;
            var k := h0[y].Kid(s);
            && h.Keys == h0.Keys && h[x] == h0[x].SetKid(Other(s), k) && h[y] == h0[y].(parent := p)
            && h[p] == h0[p].SetKid(if h0[p].left == x then Lft else Rgt, y)
            && (k != NIL ==> h[k] == h0[k].(parent := x))
            && forall n :: n in h0 && n !in {x, y, p} && (n != k || k == NIL) ==> h[n] == h0[n]
  {
    h := h0;
    var y := h[x].Kid(Other(s));
    var k := h[y].Kid(s);
    h := h[x := h[x].SetKid(Other(s), k)];
    if k != NIL {
      h := h[k := h[k].(parent := x)];
    }
    var p := h[x].parent;
    h := h[y := h[y].(parent := p)];
    if x == h[p].left {
      h := h[p := h[p].(left := y)];
    } else {
      h := h[p := h[p].(right := y)];
    }
  }

  /** Lines 114-131. */
  method RotateRecords(h0: Heap, s: Side, x: Ptr) returns (h: Heap)
    requires RotateSafe(h0, s, x)
    ensures RotatedHeap(h0, h, s, x)
  {
    var y := h0[x].Kid(Other(s));
    h := RotateLinks(h0, s, x);
    h := h[y := h[y].SetKid(s, x)];
    h := h[x := h[x].(parent := y)];
    h := h[x := h[x].(maxHigh := Max(h[h[x].Kid(s)].maxHigh, Max(h[h[x].Kid(Other(s))].maxHigh, h[x].high)))];
    h := h[y := h[y].(maxHigh := Max(h[x].maxHigh, Max(h[h[y].Kid(Other(s))].maxHigh, h[y].high)))];
  }

  /** Lines 433-441, statement by statement. */
  method TransplantRecords(h0: Heap, y: Ptr, z: Ptr) returns (h: Heap)
    requires y in h0 && z in h0 && h0[z].left in h0 && h0[z].right in h0 && h0[z].parent in h0
    requires var l, r, p := h0[z].left, h0[z].right, h0[z].parent;
             l != r && l != p && r != p && y !in {z, l, r, p} && z !in {l, r, p}
    ensures var l, r, p := h0[z].left, h0[z].right, h0[z].parent;
            && h == h0[y := h0[y].(maxHigh := -MAX_TIME, left := l, right := r, parent := p)]
                   [r := h0[r].(parent := y)][l := h0[l].(parent := y)]
                   [p := h0[p].SetKid(if h0[p].left == z then Lft else Rgt, y)]
            && h.Keys == h0.Keys
  {
    h := h0[y := h0[y].(maxHigh := -MAX_TIME)];
    h := h[y := h[y].(left := h[z].left)];
    h := h[y := h[y].(right := h[z].right)];
    h := h[y := h[y].(parent := h[z].parent)];
    var l, r, p := h[z].left, h[z].right, h[z].parent;
    h := h[r := h[r].(parent := y)];
    h := h[l := h[l].(parent := y)];
    if z == h[p].left {
      h := h[p := h[p].(left := y)];
    } else {
      h := h[p := h[p].(right := y)];
    }
  }
}
