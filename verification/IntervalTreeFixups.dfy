/**
 The rebalancing steps of insert and deleteFixup as functions on zippers, and the proofs
 that each step keeps the entries in order, the subtree maxima exact and the red-black
 rules either intact or broken only at the hole.
 */
module IntervalTreeFixups {
  import opened IntervalTreeModel

  function Paint(t: Tree, red: bool): Tree
    requires t.Br?
  {
    t.(d := t.d.(red := red))
  }

  /** leftRotate for Lft, rightRotate for Rgt: t's node sinks to side s. */
  function Rot(s: Side, t: Tree): (r: Tree)
    requires t.Br? && Kid(t, Other(s)).Br?
    ensures r.Br? && Kid(r, s).Br? && r.n == Kid(t, Other(s)).n && Kid(r, s).n == t.n
  {
    var y := Kid(t, Other(s));
    var low := Mk(s, Kid(t, s), t.n,
                  t.d.(mh := Max(Mh(Kid(t, s)), Max(Mh(Kid(y, s)), t.d.iv.high))), Kid(y, s));
    Mk(s, low, y.n, y.d.(mh := Max(low.d.mh, Max(Mh(Kid(y, Other(s))), y.d.iv.high))), Kid(y, Other(s)))
  }

  /** What the node built by Mk has in common with its parts, on either side. */
  lemma MkFacts(s: Side, a: Tree, n: Ptr, d: Data, b: Tree)
    ensures var m := Mk(s, a, n, d, b);
            && m.Br? && m.n == n && m.d == d && Kid(m, s) == a && Kid(m, Other(s)) == b
            && InOrder(m) == Join(s, InOrder(a), Item(n, d.iv), InOrder(b))
            && (MaxOk(m) <==> d.mh == Max(d.iv.high, Max(Mh(a), Mh(b))) && MaxOk(a) && MaxOk(b))
            && (ColorOk(m) <==> (d.red ==> !IsRed(a) && !IsRed(b)) && ColorOk(a) && ColorOk(b))
            && (Balanced(m) <==> Height(a) == Height(b) && Balanced(a) && Balanced(b))
            && (Balanced(m) ==> Height(m) == Height(a) + (if d.red then 0 else 1))
  {}

  lemma PaintFacts(t: Tree, red: bool)
    requires t.Br?
    ensures var q := Paint(t, red);
            && InOrder(q) == InOrder(t) && Mh(q) == Mh(t) && (MaxOk(q) <==> MaxOk(t))
            && (Balanced(q) <==> Balanced(t)) && (ColorOk(t.l) && ColorOk(t.r) && !red ==> ColorOk(q))
            && Height(q) + (if red then 1 else 0) == Height(t) + (if t.d.red then 1 else 0)
  {}

  ghost function Join(s: Side, a: seq<Item>, i: Item, b: seq<Item>): seq<Item> {
    if s == Lft then a + [i] + b else b + [i] + a
  }

  lemma JoinAssoc(s: Side, a: seq<Item>, i: Item, b: seq<Item>, j: Item, e: seq<Item>)
    ensures Join(s, Join(s, a, i, b), j, e) == Join(s, a, i, Join(s, b, j, e))
  {
    if s == Lft {
      assert a + [i] + b + [j] + e == a + [i] + (b + [j] + e);
    } else {
      assert e + [j] + (b + [i] + a) == e + [j] + b + [i] + a;
    }
  }

  lemma RotRow(s: Side, t: Tree)
    requires t.Br? && Kid(t, Other(s)).Br?
    ensures InOrder(Rot(s, t)) == InOrder(t)
  {
    var y, r := Kid(t, Other(s)), Rot(s, t);
    MkFacts(s, Kid(t, s), t.n, t.d, y);
    MkFacts(s, Kid(y, s), y.n, y.d, Kid(y, Other(s)));
    MkFacts(s, Kid(r, s), r.n, r.d, Kid(r, Other(s)));
    MkFacts(s, Kid(t, s), t.n, Kid(r, s).d, Kid(y, s));
    JoinAssoc(s, InOrder(Kid(t, s)), Item(t.n, t.d.iv), InOrder(Kid(y, s)),
              Item(y.n, y.d.iv), InOrder(Kid(y, Other(s))));
  }

  lemma RotMax(s: Side, t: Tree)
    requires t.Br? && Kid(t, Other(s)).Br? && MaxOk(t)
    ensures MaxOk(Rot(s, t)) && Mh(Rot(s, t)) == Mh(t)
  {
    var y, r := Kid(t, Other(s)), Rot(s, t);
    MkFacts(s, Kid(t, s), t.n, t.d, y);
    MkFacts(s, Kid(y, s), y.n, y.d, Kid(y, Other(s)));
    MkFacts(s, Kid(t, s), t.n, Kid(r, s).d, Kid(y, s));
    MkFacts(s, Kid(r, s), r.n, r.d, Kid(r, Other(s)));
    MaxShuffle(Mh(Kid(t, s)), t.d.iv.high, Mh(Kid(y, s)), y.d.iv.high, Mh(Kid(y, Other(s))));
  }

  lemma MaxShuffle(a: Time, x: Time, b: Time, y: Time, e: Time)
    ensures Max(a, Max(b, x)) == Max(x, Max(a, b))
    ensures Max(Max(a, Max(b, x)), Max(e, y)) == Max(y, Max(Max(x, Max(a, b)), e)) == Max(x, Max(a, Max(y, Max(b, e))))
  {}

  // ---- insertion ---------------------------------------------------------------------

  /** Holds at the head of insert's recolour loop: the only possible fault is red on red at the hole. */
  ghost predicate InsertInv(c: Ctx, t: Tree) {
    && IsRed(t) && ColorOk(t) && Balanced(t)
    && CtxOk(c, Height(t)) && RootBlack(c)
    && MaxOk(t) && MaxOkC(c, Mh(t))
  }

  /** The parent's subtree once the inner-child case has been rotated into the outer one. */
  function Straighten(c: Ctx, t: Tree): (r: Tree)
    requires c.Frame? && c.up.Frame? && t.Br?
    ensures r.Br?
  {
    var p := Mk(c.side, t, c.n, c.d, c.sib);
    if c.side == c.up.side then p else Rot(c.up.side, p)
  }

  /** The grandparent's subtree after the final rotation of the loop body. */
  function RotatedUp(c: Ctx, t: Tree): (r: Tree)
    requires c.Frame? && c.up.Frame? && t.Br?
    ensures r.Br?
  {
    var s, g := c.up.side, c.up;
    Rot(Other(s), Mk(s, Paint(Straighten(c, t), false), g.n, g.d.(red := true), g.sib))
  }

  /** One pass of the recolour loop. */
  function InsertStep(c: Ctx, t: Tree): (Ctx, Tree)
    requires c.Frame? && c.up.Frame? && t.Br?
  {
    var g, s := c.up, c.up.side;
    if IsRed(g.sib) then
      (g.up, Mk(s, Mk(c.side, t, c.n, c.d.(red := false), c.sib), g.n, g.d.(red := true), Paint(g.sib, false)))
    else
      var r := RotatedUp(c, t);
      (Frame(s, r.n, r.d, Kid(r, Other(s)), g.up), Kid(r, s))
  }

  lemma HeadRedHasGrandparent(c: Ctx)
    requires RootBlack(c) && HeadRed(c)
    ensures c.up.Frame?
  {}

  lemma InsertStepRow(c: Ctx, t: Tree)
    requires c.Frame? && c.up.Frame? && t.Br?
    ensures var (c', t') := InsertStep(c, t); Row(c', t') == Row(c, t) && Depth(c') < Depth(c)
  {
    var g, s := c.up, c.up.side;
    var p := Mk(c.side, t, c.n, c.d, c.sib);
    RowUp(c, t);
    RowUp(g, p);
    MkFacts(c.side, t, c.n, c.d, c.sib);
    MkFacts(s, p, g.n, g.d, g.sib);
    if IsRed(g.sib) {
      var p' := Mk(c.side, t, c.n, c.d.(red := false), c.sib);
      MkFacts(c.side, t, c.n, c.d.(red := false), c.sib);
      MkFacts(s, p', g.n, g.d.(red := true), Paint(g.sib, false));
    } else {
      if c.side != s { RotRow(s, p); }
      var q := Paint(Straighten(c, t), false);
      assert InOrder(q) == InOrder(p);
      MkFacts(s, q, g.n, g.d.(red := true), g.sib);
      RotRow(Other(s), Mk(s, q, g.n, g.d.(red := true), g.sib));
      var (c', t') := InsertStep(c, t);
      RowUp(c', t');
    }
  }

  lemma StraightenKeeps(c: Ctx, t: Tree)
    requires InsertInv(c, t) && HeadRed(c) && c.up.Frame?
    ensures var q := Straighten(c, t); var s := c.up.side;
            && q.d.red && Height(q) == Height(t) && Balanced(q)
            && MaxOk(q) && Mh(q) == c.d.mh
            && IsRed(Kid(q, s)) && !IsRed(Kid(q, Other(s)))
            && ColorOk(Kid(q, s)) && ColorOk(Kid(q, Other(s)))
  {
    var p := Mk(c.side, t, c.n, c.d, c.sib);
    MkFacts(c.side, t, c.n, c.d, c.sib);
    if c.side != c.up.side { RotMax(c.up.side, p); }
  }

  lemma InsertStepKeeps(c: Ctx, t: Tree)
    requires InsertInv(c, t) && HeadRed(c) && c.up.Frame?
    ensures var (c', t') := InsertStep(c, t); InsertInv(c', t')
  {
    var g, s := c.up, c.up.side;
    assert !g.d.red;
    if IsRed(g.sib) {
      InsertRecolorKeeps(c, t);
    } else {
      StraightenKeeps(c, t);
      InsertRotateKeeps(c, t, Straighten(c, t));
    }
  }

  lemma InsertRecolorKeeps(c: Ctx, t: Tree)
    requires InsertInv(c, t) && HeadRed(c) && c.up.Frame? && IsRed(c.up.sib)
    ensures var (c', t') := InsertStep(c, t); InsertInv(c', t')
  {
    var g, s := c.up, c.up.side;
    var p := Mk(c.side, t, c.n, c.d.(red := false), c.sib);
    assert CtxOk(g, Height(t)) && MaxOkC(g, c.d.mh) && RootBlack(g);
    PaintFacts(g.sib, false);
    MkFacts(c.side, t, c.n, c.d.(red := false), c.sib);
    MkFacts(s, p, g.n, g.d.(red := true), Paint(g.sib, false));
  }

  lemma InsertRotateKeeps(c: Ctx, t: Tree, q: Tree)
    requires InsertInv(c, t) && HeadRed(c) && c.up.Frame? && !IsRed(c.up.sib) && q == Straighten(c, t)
    requires q.d.red && Height(q) == Height(t) && Balanced(q) && MaxOk(q) && Mh(q) == c.d.mh
    requires var s := c.up.side;
             && IsRed(Kid(q, s)) && !IsRed(Kid(q, Other(s)))
             && ColorOk(Kid(q, s)) && ColorOk(Kid(q, Other(s)))
    ensures var (c', t') := InsertStep(c, t); InsertInv(c', t')
  {
    var g, s := c.up, c.up.side;
    var whole := Mk(s, Paint(q, false), g.n, g.d.(red := true), g.sib);
    assert CtxOk(g, Height(t)) && MaxOkC(g, c.d.mh) && RootBlack(g);
    var r := RotatedUp(c, t);
    assert MaxOk(r) && Mh(r) == g.d.mh by {
      PaintFacts(q, false);
      MkFacts(s, Paint(q, false), g.n, g.d.(red := true), g.sib);
      RotMax(Other(s), whole);
    }
    RotatedShape(s, q, g.n, g.d, g.sib, r);
    MkFacts(s, Kid(r, s), r.n, r.d, Kid(r, Other(s)));
    MkFacts(s, Kid(q, Other(s)), g.n, Kid(r, Other(s)).d, g.sib);
  }

  lemma RotatedShape(s: Side, q: Tree, n: Ptr, d: Data, unc: Tree, r: Tree)
    requires q.Br? && r == Rot(Other(s), Mk(s, Paint(q, false), n, d.(red := true), unc))
    ensures r.n == q.n && !r.d.red && Kid(r, s) == Kid(q, s) && Kid(r, Other(s)).Br?
    ensures Kid(r, Other(s)) == Mk(s, Kid(q, Other(s)), n, Kid(r, Other(s)).d, unc) && Kid(r, Other(s)).d.red
    ensures r == Mk(s, Kid(r, s), r.n, r.d, Kid(r, Other(s)))
  {}

  // ---- deletion ------------------------------------------------------------------------

  /** Holds at the head of deleteFixup's loop: the hole is one black node short; painting
      its root black repairs every fault that a red root may have. */
  ghost predicate DeleteInv(c: Ctx, t: Tree) {
    && (t.Br? ==> ColorOk(t.l) && ColorOk(t.r)) && Balanced(t)
    && CtxOk(c, Height(t) + 1) && RootBlack(c)
    && MaxOk(t) && MaxOkC(c, Mh(t))
  }

  /** Lines 332-336: a red sibling is rotated above the parent. */
  function RedSibling(c: Ctx, t: Tree): (r: Ctx)
    requires c.Frame? && IsRed(c.sib)
    ensures r.Frame? && r.side == c.side && r.n == c.n && r.d.red && r.sib == Kid(c.sib, c.side)
    ensures r.up.Frame? && r.up.side == c.side && r.up.n == c.sib.n && r.up.up == c.up
  {
    var s := c.side;
    var q := Rot(s, Mk(s, t, c.n, c.d.(red := true), Paint(c.sib, false)));
    var p := Kid(q, s);
    Frame(s, p.n, p.d, Kid(p, Other(s)), Frame(s, q.n, q.d, Kid(q, Other(s)), c.up))
  }

  lemma RedSiblingKeeps(c: Ctx, t: Tree)
    requires DeleteInv(c, t) && c.Frame? && IsRed(c.sib)
    ensures var c' := RedSibling(c, t);
            DeleteInv(c', t) && Row(c', t) == Row(c, t) && !IsRed(c'.sib) && c'.sib.Br?
  {
    var s, c' := c.side, RedSibling(c, t);
    var w := Paint(c.sib, false);
    var p := Mk(s, t, c.n, c.d.(red := true), w);
    MkFacts(s, t, c.n, c.d.(red := true), w);
    MkFacts(s, t, c.n, c.d, c.sib);
    RowUp(c, t);
    RotRow(s, p);
    RowUp(c', t);
    RowUp(c'.up, Mk(s, t, c'.n, c'.d, c'.sib));
    RedSiblingColors(c, t);
    RotMax(s, p);
    RotParts(s, p);
  }

  /** Reading the two halves of a rotated tree back as frames. */
  lemma RotParts(s: Side, t: Tree)
    requires t.Br? && Kid(t, Other(s)).Br?
    ensures var r := Rot(s, t);
            && r == Mk(s, Kid(r, s), r.n, r.d, Kid(r, Other(s)))
            && Kid(r, s) == Mk(s, Kid(t, s), t.n, Kid(r, s).d, Kid(Kid(t, Other(s)), s))
            && Kid(r, Other(s)) == Kid(Kid(t, Other(s)), Other(s))
            && r.d.red == Kid(t, Other(s)).d.red && Kid(r, s).d.red == t.d.red
  {}

  lemma RedSiblingColors(c: Ctx, t: Tree)
    requires DeleteInv(c, t) && c.Frame? && IsRed(c.sib)
    ensures var c' := RedSibling(c, t);
            CtxOk(c', Height(t) + 1) && RootBlack(c') && !IsRed(c'.sib) && c'.sib.Br?
  {
    var c' := RedSibling(c, t);
    assert !c.d.red;
    assert Height(c'.sib) == Height(c.sib) == Height(t) + 1;
    assert CtxOk(c'.up, Height(t) + 1);
  }

  /** Lines 338-341: both nephews black, the shortage moves up. */
  function BlackNephews(c: Ctx, t: Tree): (Ctx, Tree)
    requires c.Frame? && c.sib.Br?
  {
    (c.up, Mk(c.side, t, c.n, c.d, Paint(c.sib, true)))
  }

  lemma BlackNephewsKeeps(c: Ctx, t: Tree)
    requires DeleteInv(c, t) && c.Frame? && !IsRed(c.sib) && !IsRed(t)
    requires c.sib.Br? && !IsRed(c.sib.l) && !IsRed(c.sib.r)
    ensures var (c', t') := BlackNephews(c, t);
            DeleteInv(c', t') && Row(c', t') == Row(c, t)
  {
    RowUp(c, t);
    PaintFacts(c.sib, true);
    assert ColorOk(Paint(c.sib, true));
    MkFacts(c.side, t, c.n, c.d, c.sib);
    MkFacts(c.side, t, c.n, c.d, Paint(c.sib, true));
  }

  /** Lines 343-348: bring a red nephew to the far side. */
  function FarRed(c: Ctx): (r: Tree)
    requires c.Frame? && c.sib.Br? && (IsRed(c.sib.l) || IsRed(c.sib.r))
    ensures r.Br? && IsRed(Kid(r, Other(c.side)))
  {
    var s := c.side;
    if IsRed(Kid(c.sib, Other(s))) then c.sib
    else Rot(Other(s), Mk(s, Paint(Kid(c.sib, s), false), c.sib.n, c.sib.d.(red := true), Kid(c.sib, Other(s))))
  }

  /** Lines 349-352: the rotation that ends the loop. */
  function LastRotation(c: Ctx, t: Tree): (r: Tree)
    requires c.Frame? && c.sib.Br? && (IsRed(c.sib.l) || IsRed(c.sib.r))
    ensures r.Br? && Kid(r, c.side).Br? && Kid(r, c.side).n == c.n && !Kid(r, c.side).d.red
  {
    var s, w := c.side, FarRed(c);
    var w' := Mk(s, Kid(w, s), w.n, w.d.(red := c.d.red), Paint(Kid(w, Other(s)), false));
    Rot(s, Mk(s, t, c.n, c.d.(red := false), w'))
  }

  lemma FarRedKeeps(c: Ctx)
    requires c.Frame? && c.sib.Br? && (IsRed(c.sib.l) || IsRed(c.sib.r))
    requires ColorOk(c.sib) && Balanced(c.sib) && MaxOk(c.sib) && !IsRed(c.sib)
    ensures var w := FarRed(c);
            && ColorOk(w) && Balanced(w) && Height(w) == Height(c.sib) && MaxOk(w)
            && Mh(w) == Mh(c.sib) && InOrder(w) == InOrder(c.sib) && !IsRed(w)
  {
    var s := c.side;
    if !IsRed(Kid(c.sib, Other(s))) {
      var near, d := Paint(Kid(c.sib, s), false), c.sib.d.(red := true);
      var m := Mk(s, near, c.sib.n, d, Kid(c.sib, Other(s)));
      MkFacts(s, near, c.sib.n, d, Kid(c.sib, Other(s)));
      MkFacts(s, Kid(c.sib, s), c.sib.n, c.sib.d, Kid(c.sib, Other(s)));
      RotRow(Other(s), m);
      RotMax(Other(s), m);
      RotParts(Other(s), m);
    }
  }

  lemma LastRotationKeeps(c: Ctx, t: Tree)
    requires DeleteInv(c, t) && c.Frame? && !IsRed(t) && !IsRed(c.sib)
    requires c.sib.Br? && (IsRed(c.sib.l) || IsRed(c.sib.r))
    ensures var r := LastRotation(c, t);
            && ColorOk(r) && Balanced(r) && CtxOk(c.up, Height(r))
            && IsRed(r) == c.d.red && MaxOk(r) && MaxOkC(c.up, Mh(r))
            && Row(c.up, r) == Row(c, t)
  {
    FarRedKeeps(c);
    var s, w := c.side, FarRed(c);
    var far := Paint(Kid(w, Other(s)), false);
    var w' := Mk(s, Kid(w, s), w.n, w.d.(red := c.d.red), far);
    var p := Mk(s, t, c.n, c.d.(red := false), w');
    MkFacts(s, Kid(w, s), w.n, w.d, Kid(w, Other(s)));
    MkFacts(s, Kid(w, s), w.n, w.d.(red := c.d.red), far);
    MkFacts(s, t, c.n, c.d.(red := false), w');
    MkFacts(s, t, c.n, c.d, c.sib);
    RowUp(c, t);
    RotRow(s, p);
    RotMax(s, p);
    LastRotationColors(c, t, w);
  }

  lemma LastRotationColors(c: Ctx, t: Tree, w: Tree)
    requires DeleteInv(c, t) && c.Frame? && !IsRed(t) && !IsRed(c.sib)
    requires c.sib.Br? && (IsRed(c.sib.l) || IsRed(c.sib.r)) && w == FarRed(c)
    requires ColorOk(w) && Balanced(w) && Height(w) == Height(c.sib) && !IsRed(w)
    ensures var r := LastRotation(c, t);
            ColorOk(r) && Balanced(r) && CtxOk(c.up, Height(r)) && IsRed(r) == c.d.red
  {
    var s, r := c.side, LastRotation(c, t);
    LastShape(s, t, c.n, Kid(r, s).d, Kid(w, s), w.n, r.d, Kid(w, Other(s)));
  }

  lemma LastShape(s: Side, t: Tree, n: Ptr, dl: Data, near: Tree, wn: Ptr, dr: Data, far: Tree)
    requires !IsRed(t) && ColorOk(t) && Balanced(t) && !dl.red
    requires ColorOk(near) && Balanced(near) && Height(near) == Height(t)
    requires IsRed(far) && ColorOk(far) && Balanced(far) && Height(far) == Height(t)
    ensures var r := Mk(s, Mk(s, t, n, dl, near), wn, dr, Paint(far, false));
            ColorOk(r) && Balanced(r) && Height(r) == Height(t) + 1 + (if dr.red then 0 else 1)
  {
    var low := Mk(s, t, n, dl, near);
    PaintFacts(far, false);
    MkFacts(s, t, n, dl, near);
    MkFacts(s, low, wn, dr, Paint(far, false));
  }

  /** A path and a subtree that fit: plugged together they are a whole valid tree. */
  lemma Assemble(c: Ctx, t: Tree)
    requires ColorOk(t) && Balanced(t) && CtxOk(c, Height(t)) && RootBlack(c)
    requires !(HeadRed(c) && IsRed(t)) && (c.Top? ==> !IsRed(t))
    requires MaxOk(t) && MaxOkC(c, Mh(t)) && Sorted(Row(c, t))
    ensures TreeOk(Plug(c, t)) && InOrder(Plug(c, t)) == Row(c, t)
  {
    PlugColors(c, t);
    PlugMax(c, t);
    PlugInOrder(c, t);
  }

  lemma Disassemble(c: Ctx, t: Tree)
    requires TreeOk(Plug(c, t))
    ensures ColorOk(t) && Balanced(t) && CtxOk(c, Height(t)) && RootBlack(c)
    ensures !(HeadRed(c) && IsRed(t)) && (c.Top? ==> !IsRed(t))
    ensures MaxOk(t) && MaxOkC(c, Mh(t)) && InOrder(Plug(c, t)) == Row(c, t)
  {
    PlugColors(c, t);
    PlugMax(c, t);
    PlugInOrder(c, t);
  }
}
