/**
 Removing a node from the shape: deleteNode splices out either the node itself or its
 in-order successor, which then takes over the node's place and colour.
 */
module IntervalTreeSplice {
  import opened IntervalTreeModel
  import opened IntervalTreeFixups

  /** The path from `up` to the leftmost node of t. */
  function Spine(t: Tree, up: Ctx): Ctx
    requires t.Br?
  {
    if t.l.Leaf? then up else Spine(t.l, Frame(Lft, t.n, t.d, t.r, up))
  }

  /** The leftmost node of t with its right subtree. */
  function Least(t: Tree): (m: Tree)
    requires t.Br?
    ensures m.Br? && m.l.Leaf?
  {
    if t.l.Leaf? then t else Least(t.l)
  }

  /** t with its leftmost node spliced out. */
  function WithoutLeast(t: Tree): Tree
    requires t.Br?
  {
    if t.l.Leaf? then t.r else Br(WithoutLeast(t.l), t.n, t.d, t.r)
  }

  lemma {:induction false} SpinePlug(t: Tree, up: Ctx)
    requires t.Br?
    ensures Plug(Spine(t, up), Least(t)) == Plug(up, t)
    ensures Plug(Spine(t, up), Least(t).r) == Plug(up, WithoutLeast(t))
  {
    if t.l.Br? { SpinePlug(t.l, Frame(Lft, t.n, t.d, t.r, up)); }
  }

  lemma {:induction false} LeastIsFirst(t: Tree)
    requires t.Br?
    ensures InOrder(t) == [Item(Least(t).n, Least(t).d.iv)] + InOrder(WithoutLeast(t))
  {
    if t.l.Br? {
      LeastIsFirst(t.l);
    }
  }

  lemma {:induction false} SpineRow(t: Tree, up: Ctx)
    requires t.Br?
    ensures Row(Spine(t, up), Least(t).r) == Row(up, WithoutLeast(t))
  {
    if t.l.Br? {
      SpineRow(t.l, Frame(Lft, t.n, t.d, t.r, up));
      RowUp(Frame(Lft, t.n, t.d, t.r, up), WithoutLeast(t.l));
    }
  }

  /** Two paths of the same shape and colours, whoever stands on them. */
  ghost predicate Alike(c: Ctx, c': Ctx) {
    c.Top? == c'.Top? &&
    (c.Frame? ==> c'.side == c.side && c'.sib == c.sib && c'.d.red == c.d.red && Alike(c.up, c'.up))
  }

  lemma {:induction false} AlikeSelf(c: Ctx)
    ensures Alike(c, c)
  {
    if c.Frame? { AlikeSelf(c.up); }
  }

  lemma {:induction false} AlikeFacts(c: Ctx, c': Ctx, h: nat)
    requires Alike(c, c')
    ensures CtxOk(c, h) <==> CtxOk(c', h)
    ensures HeadRed(c) == HeadRed(c') && RootBlack(c) == RootBlack(c') && SibsMaxOk(c) == SibsMaxOk(c')
  {
    if c.Frame? { AlikeFacts(c.up, c'.up, h + (if c.d.red then 0 else 1)); }
  }

  lemma {:induction false} SpineAlike(t: Tree, c: Ctx, c': Ctx)
    requires t.Br? && Alike(c, c')
    ensures Alike(Spine(t, c), Spine(t, c'))
  {
    if t.l.Br? { SpineAlike(t.l, Frame(Lft, t.n, t.d, t.r, c), Frame(Lft, t.n, t.d, t.r, c')); }
  }

  /** The path with node n painted. */
  function PaintOn(c: Ctx, n: Ptr, red: bool): Ctx {
    if c.Top? then Top
    else if c.n == n then c.(d := c.d.(red := red))
    else c.(up := PaintOn(c.up, n, red))
  }

  lemma {:induction false} PaintOnFixMax(c: Ctx, n: Ptr, red: bool, mh: Time)
    ensures PaintOn(FixMax(c, mh), n, red) == FixMax(PaintOn(c, n, red), mh)
  {
    if c.Frame? && c.n != n {
      PaintOnFixMax(c.up, n, red, Max(c.d.iv.high, Max(mh, Mh(c.sib))));
    }
  }

  /** n is not one of the nodes passed on the way to the leftmost one. */
  predicate Avoids(t: Tree, n: Ptr)
    requires t.Br?
  {
    t.l.Leaf? || (t.n != n && Avoids(t.l, n))
  }

  lemma {:induction false} PaintOnSpine(t: Tree, up: Ctx, n: Ptr, red: bool)
    requires t.Br? && Avoids(t, n)
    ensures PaintOn(Spine(t, up), n, red) == Spine(t, PaintOn(up, n, red))
  {
    if t.l.Br? { PaintOnSpine(t.l, Frame(Lft, t.n, t.d, t.r, up), n, red); }
  }

  // ---- what is left to repair after a splice ---------------------------------------

  /** row' is row without its k-th entry, which is x. */
  ghost predicate Drops(row: seq<Item>, row': seq<Item>, x: Item, k: nat) {
    k < |row| && row[k] == x && row' == row[..k] + row[k + 1..]
  }

  lemma DropMiddle(p: seq<Item>, a: seq<Item>, x: Item, b: seq<Item>, q: seq<Item>)
    ensures Drops(p + (a + [x] + b) + q, p + (a + b) + q, x, |p| + |a|)
  {
    var row := p + (a + [x] + b) + q;
    assert row[..|p| + |a|] == p + a;
    assert row[|p| + |a| + 1..] == b + q;
  }

  lemma SpliceRow(c: Ctx, t: Tree, k: Tree)
    requires t.Br? && InOrder(k) == InOrder(t.l) + InOrder(t.r)
    ensures Drops(Row(c, t), Row(c, k), Item(t.n, t.d.iv), |Before(c)| + |InOrder(t.l)|)
  {
    DropMiddle(Before(c), InOrder(t.l), Item(t.n, t.d.iv), InOrder(t.r), After(c));
  }

  /** A node with at most one child, and that child. */
  ghost predicate OnlyChild(t: Tree, k: Tree) {
    t.Br? && ((t.l.Leaf? && k == t.r) || (t.r.Leaf? && k == t.l))
  }

  lemma OnlyChildRow(t: Tree, k: Tree)
    requires OnlyChild(t, k)
    ensures InOrder(k) == InOrder(t.l) + InOrder(t.r)
  {}

  /** What is left to repair when the only child k has taken the place of a node. */
  ghost predicate Spliced(c: Ctx, k: Tree, wasRed: bool) {
    && SibsMaxOk(c) && MaxOk(k) && ColorOk(k) && Balanced(k) && RootBlack(c)
    && if wasRed then CtxOk(c, Height(k)) && !IsRed(k) else CtxOk(c, Height(k) + 1)
  }

  lemma SpliceSingle(c: Ctx, t: Tree, k: Tree)
    requires TreeOk(Plug(c, t)) && OnlyChild(t, k)
    ensures Spliced(c, k, t.d.red)
  {
    Disassemble(c, t);
    MaxOkCSibs(c, Mh(t));
    OnlyChildFits(t, k);
  }

  /** The only child has the rules of a subtree, and the height that the colour of its parent leaves. */
  lemma OnlyChildFits(t: Tree, k: Tree)
    requires OnlyChild(t, k) && MaxOk(t) && ColorOk(t) && Balanced(t)
    ensures MaxOk(k) && ColorOk(k) && Balanced(k) && (t.d.red ==> !IsRed(k))
    ensures Height(t) == Height(k) + if t.d.red then 0 else 1
  {}

  /** The frame of z once its successor, painted `red`, stands there. */
  function Heir(c: Ctx, z: Tree, red: bool): (f: Ctx)
    requires z.Br? && z.r.Br?
    ensures f.Frame?
  {
    Frame(Rgt, Least(z.r).n, Data(Least(z.r).d.iv, red, -MAX_TIME), z.l, c)
  }

  /** Splicing out the successor and letting it replace z. */
  lemma SpliceSuccessor(c: Ctx, z: Tree)
    requires TreeOk(Plug(c, z)) && z.Br? && z.r.Br?
    ensures Spliced(Spine(z.r, Heir(c, z, z.d.red)), Least(z.r).r, Least(z.r).d.red)
  {
    var y := Least(z.r);
    var f, f' := Frame(Rgt, z.n, z.d, z.l, c), Heir(c, z, z.d.red);
    SpinePlug(z.r, f);
    SpliceSingle(Spine(z.r, f), y, y.r);
    AlikeSelf(c);
    SpineAlike(z.r, f, f');
    AlikeFacts(Spine(z.r, f), Spine(z.r, f'), Height(y.r) + (if y.d.red then 0 else 1));
  }

  lemma SpliceSuccessorRow(c: Ctx, z: Tree, red: bool)
    requires z.Br? && z.r.Br?
    ensures Drops(Row(c, z), Row(Spine(z.r, Heir(c, z, red)), Least(z.r).r), Item(z.n, z.d.iv),
                  |Before(c)| + |InOrder(z.l)|)
  {
    var f := Heir(c, z, red);
    SpineRow(z.r, f);
    RowUp(f, WithoutLeast(z.r));
    LeastIsFirst(z.r);
    var heir := Br(z.l, f.n, f.d, WithoutLeast(z.r));
    assert InOrder(heir) == InOrder(z.l) + InOrder(z.r);
    SpliceRow(c, z, heir);
  }

  /** Once the maxima on the path are recomputed, only the colours are left to repair. */
  lemma SplicedAfterFixMax(c: Ctx, k: Tree, wasRed: bool)
    requires Spliced(c, k, wasRed)
    ensures var p := FixMax(c, Mh(k));
            && Row(p, k) == Row(c, k) && MaxOkC(p, Mh(k)) && RootBlack(p) && HeadRed(p) == HeadRed(c)
            && (p.Top? <==> c.Top?)
            && if wasRed then CtxOk(p, Height(k)) else DeleteInv(p, k)
  {
    FixMaxKeeps(c, Mh(k), Height(k) + (if wasRed then 0 else 1));
  }

  lemma DropsSorted(row: seq<Item>, row': seq<Item>, x: Item, k: nat)
    requires Drops(row, row', x, k) && Sorted(row)
    ensures Sorted(row')
  {}

  /** Path and subtree already fit together. */
  ghost predicate Settled(c: Ctx, t: Tree) {
    && ColorOk(t) && Balanced(t) && CtxOk(c, Height(t)) && RootBlack(c) && !IsRed(t)
    && MaxOk(t) && MaxOkC(c, Mh(t))
  }

  lemma SingleRow(c: Ctx, t: Tree, k: Tree)
    requires OnlyChild(t, k) && Sorted(InOrder(Plug(c, t)))
    ensures Drops(InOrder(Plug(c, t)), Row(c, k), Item(t.n, t.d.iv), |Before(c)| + |InOrder(t.l)|)
    ensures Sorted(Row(c, k))
  {
    OnlyChildRow(t, k);
    SpliceRow(c, t, k);
    PlugInOrder(c, t);
    DroppedRow(InOrder(Plug(c, t)), Row(c, t), Row(c, k), Item(t.n, t.d.iv), |Before(c)| + |InOrder(t.l)|);
  }

  lemma DroppedRow(whole: seq<Item>, row: seq<Item>, row': seq<Item>, x: Item, k: nat)
    requires whole == row && Sorted(whole) && Drops(row, row', x, k)
    ensures Drops(whole, row', x, k) && Sorted(row')
  {
    DropsSorted(row, row', x, k);
  }

  lemma SingleReady(c: Ctx, t: Tree, k: Tree)
    requires TreeOk(Plug(c, t)) && OnlyChild(t, k)
    ensures var p := FixMax(c, Mh(k));
            && Row(p, k) == Row(c, k) && if t.d.red then Settled(p, k) else DeleteInv(p, k)
  {
    SpliceSingle(c, t, k);
    SplicedAfterFixMax(c, k, t.d.red);
  }

  lemma DoubleRow(c: Ctx, z: Tree)
    requires z.Br? && z.r.Br? && Sorted(InOrder(Plug(c, z)))
    ensures var row := Row(Spine(z.r, Heir(c, z, z.d.red)), Least(z.r).r);
            && Drops(InOrder(Plug(c, z)), row, Item(z.n, z.d.iv), |Before(c)| + |InOrder(z.l)|)
            && Sorted(row)
  {
    var q := Spine(z.r, Heir(c, z, z.d.red));
    SpliceSuccessorRow(c, z, z.d.red);
    PlugInOrder(c, z);
    DroppedRow(InOrder(Plug(c, z)), Row(c, z), Row(q, Least(z.r).r), Item(z.n, z.d.iv), |Before(c)| + |InOrder(z.l)|);
  }

  lemma DoubleReady(c: Ctx, z: Tree)
    requires TreeOk(Plug(c, z)) && z.Br? && z.r.Br?
    ensures var k, q := Least(z.r).r, Spine(z.r, Heir(c, z, z.d.red)); var p := FixMax(q, Mh(k));
            && Row(p, k) == Row(q, k) && if Least(z.r).d.red then Settled(p, k) else DeleteInv(p, k)
  {
    SpliceSuccessor(c, z);
    SplicedAfterFixMax(Spine(z.r, Heir(c, z, z.d.red)), Least(z.r).r, Least(z.r).d.red);
  }
}
