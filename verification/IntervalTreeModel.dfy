/**
 The value-level meaning of the interval tree: what the linked nodes of
 inet::IntervalTree stand for, independent of the heap.

 A `Tree` is the shape hanging below the `root` sentinel. A `Ctx` is a zipper: the path
 from a position in the tree back up to the sentinel. Both record node identities, so a
 statement about `InOrder` is a statement about which node records are in the tree and in
 which order.

 The left and right branches of the source are mirror images; a `Side` parameter stands
 for the pair.
 */
module IntervalTreeModel {

  /** SimTime::getMaxTime(), in raw ticks. */
  const MAX_TIME: int := 0x7FFF_FFFF_FFFF_FFFF

  type Time = t: int | -MAX_TIME <= t <= MAX_TIME witness 0

  /** A stored interval. `id` is its address: deletion searches by identity. */
  datatype Interval = Interval(id: nat, low: Time, high: Time)

  /** Address of a node record. */
  type Ptr = nat

  const NIL: Ptr := 0
  const ROOT: Ptr := 1

  datatype Side = Lft | Rgt

  function Other(s: Side): Side {
    if s == Lft then Rgt else Lft
  }

  /** What a node carries besides its links: interval, colour, subtree maximum. */
  datatype Data = Data(iv: Interval, red: bool, mh: Time)

  datatype Tree = Leaf | Br(l: Tree, n: Ptr, d: Data, r: Tree)

  /** A path to a hole: the hole hangs on `side` of node `n`; `sib` is n's other subtree. */
  datatype Ctx = Top | Frame(side: Side, n: Ptr, d: Data, sib: Tree, up: Ctx)

  /** One stored entry: the node's address and the interval it stores. */
  datatype Item = Item(n: Ptr, iv: Interval)

  function Kid(t: Tree, s: Side): Tree
    requires t.Br?
  {
    if s == Lft then t.l else t.r
  }

  /** The node whose subtree on side `s` is `near`. */
  function Mk(s: Side, near: Tree, n: Ptr, d: Data, far: Tree): Tree {
    if s == Lft then Br(near, n, d, far) else Br(far, n, d, near)
  }

  function Plug(c: Ctx, t: Tree): Tree {
    match c
    case Top => t
    case Frame(s, n, d, sib, up) => Plug(up, Mk(s, t, n, d, sib))
  }

  function TNodes(t: Tree): set<Ptr> {
    if t.Leaf? then {} else TNodes(t.l) + {t.n} + TNodes(t.r)
  }

  function CNodes(c: Ctx): set<Ptr> {
    if c.Top? then {} else {c.n} + TNodes(c.sib) + CNodes(c.up)
  }

  function Depth(c: Ctx): nat {
    if c.Top? then 0 else 1 + Depth(c.up)
  }

  // ---- the entries, in key order -------------------------------------------------

  function InOrder(t: Tree): seq<Item> {
    match t
    case Leaf => []
    case Br(l, n, d, r) => InOrder(l) + [Item(n, d.iv)] + InOrder(r)
  }

  function Before(c: Ctx): seq<Item> {
    match c
    case Top => []
    case Frame(s, n, d, sib, up) =>
      if s == Lft then Before(up) else Before(up) + InOrder(sib) + [Item(n, d.iv)]
  }

  function After(c: Ctx): seq<Item> {
    match c
    case Top => []
    case Frame(s, n, d, sib, up) =>
      if s == Lft then [Item(n, d.iv)] + InOrder(sib) + After(up) else After(up)
  }

  /** All entries of the tree seen from a position. */
  ghost function Row(c: Ctx, t: Tree): seq<Item> {
    Before(c) + InOrder(t) + After(c)
  }

  lemma RowUp(c: Ctx, t: Tree)
    requires c.Frame?
    ensures Row(c, t) == Row(c.up, Mk(c.side, t, c.n, c.d, c.sib))
  {}

  lemma {:induction false} PlugInOrder(c: Ctx, t: Tree)
    ensures InOrder(Plug(c, t)) == Row(c, t)
  {
    if c.Frame? {
      PlugInOrder(c.up, Mk(c.side, t, c.n, c.d, c.sib));
      RowUp(c, t);
    }
  }

  /** Binary search order: in-order traversal is non-decreasing in key. */
  ghost predicate Sorted(s: seq<Item>) {
    forall i, j :: 0 <= i < j < |s| ==> s[i].iv.low <= s[j].iv.low
  }

  // ---- subtree maxima -----------------------------------------------------------

  function Max(a: Time, b: Time): Time {
    if a < b then b else a
  }

  function Mh(t: Tree): Time {
    if t.Leaf? then -MAX_TIME else t.d.mh
  }

  /** Every node records the greatest high endpoint of its subtree. */
  ghost predicate MaxOk(t: Tree) {
    t.Br? ==> t.d.mh == Max(t.d.iv.high, Max(Mh(t.l), Mh(t.r))) && MaxOk(t.l) && MaxOk(t.r)
  }

  /** The same for the nodes of a path whose hole has maximum `mh`. */
  ghost predicate MaxOkC(c: Ctx, mh: Time) {
    c.Frame? ==>
      && c.d.mh == Max(c.d.iv.high, Max(mh, Mh(c.sib)))
      && MaxOk(c.sib) && MaxOkC(c.up, c.d.mh)
  }

  lemma {:induction false} PlugMax(c: Ctx, t: Tree)
    ensures MaxOk(Plug(c, t)) <==> MaxOk(t) && MaxOkC(c, Mh(t))
  {
    if c.Frame? { PlugMax(c.up, Mk(c.side, t, c.n, c.d, c.sib)); }
  }

  /** The recomputation of line 183 along a whole path. */
  function FixMax(c: Ctx, mh: Time): Ctx {
    match c
    case Top => Top
    case Frame(s, n, d, sib, up) =>
      var m := Max(d.iv.high, Max(mh, Mh(sib)));
      Frame(s, n, d.(mh := m), sib, FixMax(up, m))
  }

  /** Siblings off the path carry exact maxima. */
  ghost predicate SibsMaxOk(c: Ctx) {
    c.Frame? ==> MaxOk(c.sib) && SibsMaxOk(c.up)
  }

  lemma {:induction false} FixMaxKeeps(c: Ctx, mh: Time, h: nat)
    requires SibsMaxOk(c)
    ensures MaxOkC(FixMax(c, mh), mh)
    ensures Before(FixMax(c, mh)) == Before(c) && After(FixMax(c, mh)) == After(c)
    ensures CtxOk(FixMax(c, mh), h) <==> CtxOk(c, h)
    ensures HeadRed(FixMax(c, mh)) == HeadRed(c) && RootBlack(FixMax(c, mh)) == RootBlack(c)
  {
    if c.Frame? {
      FixMaxKeeps(c.up, Max(c.d.iv.high, Max(mh, Mh(c.sib))), h + (if c.d.red then 0 else 1));
    }
  }

  lemma {:induction false} MaxOkCSibs(c: Ctx, mh: Time)
    requires MaxOkC(c, mh)
    ensures SibsMaxOk(c)
  {
    if c.Frame? { MaxOkCSibs(c.up, c.d.mh); }
  }

  // ---- red-black rules ------------------------------------------------------------

  predicate IsRed(t: Tree) {
    t.Br? && t.d.red
  }

  /** No red node has a red child. */
  ghost predicate ColorOk(t: Tree) {
    t.Br? ==> (t.d.red ==> !IsRed(t.l) && !IsRed(t.r)) && ColorOk(t.l) && ColorOk(t.r)
  }

  /** Black nodes on the leftmost path. */
  function Height(t: Tree): nat {
    if t.Leaf? then 0 else Height(t.l) + (if t.d.red then 0 else 1)
  }

  /** Every downward path from a node has equally many black nodes. */
  ghost predicate Balanced(t: Tree) {
    t.Br? ==> Height(t.l) == Height(t.r) && Balanced(t.l) && Balanced(t.r)
  }

  predicate HeadRed(c: Ctx) {
    c.Frame? && c.d.red
  }

  predicate RootBlack(c: Ctx) {
    c.Frame? ==> if c.up.Top? then !c.d.red else RootBlack(c.up)
  }

  /** The path obeys both rules when its hole has black height `h`. */
  ghost predicate CtxOk(c: Ctx, h: nat) {
    c.Frame? ==>
      && ColorOk(c.sib) && Balanced(c.sib) && Height(c.sib) == h
      && (c.d.red ==> !IsRed(c.sib) && !HeadRed(c.up))
      && CtxOk(c.up, h + (if c.d.red then 0 else 1))
  }

  ghost predicate RedBlack(t: Tree) {
    !IsRed(t) && ColorOk(t) && Balanced(t)
  }

  lemma {:induction false} PlugColors(c: Ctx, t: Tree)
    ensures ColorOk(Plug(c, t)) && Balanced(Plug(c, t)) <==>
            ColorOk(t) && Balanced(t) && CtxOk(c, Height(t)) && !(HeadRed(c) && IsRed(t))
    ensures c.Frame? ==> (IsRed(Plug(c, t)) <==> !RootBlack(c))
  {
    match c
    case Top =>
    case Frame(s, n, d, sib, up) =>
      var m := Mk(s, t, n, d, sib);
      PlugColors(up, m);
      if Height(t) == Height(sib) {
        assert Height(m) == Height(t) + (if d.red then 0 else 1);
      }
  }

  /** Everything a tree must satisfy between calls. */
  ghost predicate TreeOk(t: Tree) {
    Sorted(InOrder(t)) && MaxOk(t) && RedBlack(t)
  }
}
