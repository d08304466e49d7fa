/**
 inet::InitStageRegistry: initialization stages are numbered by repeated passes over the
 stage vector, a stage getting the next number once all its preceding stages have one.
 Stages are identified by their addresses 0..n-1; the vector of pointers is permuted by
 the final sort.
 */
module InitStages {
  import opened Options

  datatype Outcome = Done | UnknownStage(name: string) | Circle

  /** For each stage, the stages that must come before it. */
  type Graph = seq<seq<nat>>

  ghost predicate GraphOk(g: Graph) {
    forall s, j :: 0 <= s < |g| && 0 <= j < |g[s]| ==> g[s][j] < |g|
  }

  ghost predicate Edge(g: Graph, s: nat, p: nat) {
    s < |g| && p in g[s]
  }

  /** A circular dependency: each stage has the next one as a predecessor. */
  ghost predicate IsCycle(g: Graph, w: seq<nat>) {
    |w| >= 2 && w[0] == w[|w| - 1] && forall i :: 0 <= i < |w| - 1 ==> Edge(g, w[i], w[i + 1])
  }

  // ---- counting ---------------------------------------------------------------------------

  ghost predicate Distinct(s: seq<nat>) {
    forall i, j :: 0 <= i < j < |s| ==> s[i] != s[j]
  }

  ghost function Below(n: nat): set<nat> {
    if n == 0 then {} else Below(n - 1) + {n - 1}
  }

  lemma {:induction false} BelowSize(n: nat)
    ensures |Below(n)| == n && forall x: nat :: x in Below(n) <==> x < n
  {
    if n > 0 { BelowSize(n - 1); }
  }

  ghost function Elems(s: seq<nat>): set<nat> {
    set x | x in s
  }

  lemma {:induction false} DistinctSize(s: seq<nat>)
    requires Distinct(s)
    ensures |Elems(s)| == |s|
  {
    if s != [] {
      var t := s[..|s| - 1];
      DistinctSize(t);
      assert Elems(s) == Elems(t) + {s[|s| - 1]};
    }
  }

  lemma SubsetSize(a: set<nat>, b: set<nat>)
    requires a <= b
    ensures |a| <= |b| && (|a| == |b| ==> a == b)
  {
    var rest := b - a;
    assert b == a + rest;
    assert |b| == |a| + |rest|;
  }

  /** Distinct numbers below n: at most n of them, and if n then all. */
  lemma DistinctBelow(s: seq<nat>, n: nat)
    requires Distinct(s) && forall i :: 0 <= i < |s| ==> s[i] < n
    ensures |s| <= n
    ensures |s| == n ==> forall x: nat :: x < n ==> x in s
  {
    DistinctSize(s);
    BelowSize(n);
    assert Elems(s) <= Below(n);
    SubsetSize(Elems(s), Below(n));
    if |s| == n {
      forall x: nat | x < n ensures x in s {
        assert x in Below(n);
      }
    }
  }

  // ---- cycles and rankings ------------------------------------------------------------------

  /** Numbers that put every stage after its predecessors. */
  ghost predicate Ranks(g: Graph, number: seq<int>) {
    |number| == |g| && forall s: nat, p: nat :: Edge(g, s, p) && p < |g| ==> number[p] < number[s]
  }

  lemma {:induction false} RankFalls(g: Graph, number: seq<int>, w: seq<nat>, k: nat)
    requires GraphOk(g) && Ranks(g, number) && k < |w|
    requires forall i :: 0 <= i < |w| - 1 ==> Edge(g, w[i], w[i + 1])
    requires w[0] < |g|
    ensures w[k] < |g| && (k > 0 ==> number[w[k]] < number[w[0]])
  {
    if k > 0 {
      RankFalls(g, number, w, k - 1);
      assert Edge(g, w[k - 1], w[k]);
    }
  }

  /** A ranked graph has no cycle. */
  lemma RankedHasNoCycle(g: Graph, number: seq<int>, w: seq<nat>)
    requires GraphOk(g) && Ranks(g, number)
    ensures !IsCycle(g, w)
  {
    if IsCycle(g, w) {
      assert Edge(g, w[0], w[1]);
      RankFalls(g, number, w, |w| - 1);
    }
  }

  /** Every stage of u has a predecessor in u. */
  ghost predicate Stuck(g: Graph, u: set<nat>) {
    forall s {:trigger HasPredecessor(g, u, s)} :: s in u ==> HasPredecessor(g, u, s)
  }

  ghost predicate HasPredecessor(g: Graph, u: set<nat>, s: nat) {
    exists p :: p in u && Edge(g, s, p)
  }

  /** A walk along predecessors. */
  ghost predicate IsWalk(g: Graph, w: seq<nat>) {
    w != [] && forall i :: 0 <= i < |w| - 1 ==> Edge(g, w[i], w[i + 1])
  }

  lemma ExtendWalk(g: Graph, w: seq<nat>, p: nat)
    requires IsWalk(g, w) && Edge(g, w[|w| - 1], p)
    ensures IsWalk(g, w + [p])
    ensures forall i :: 0 <= i < |w| && w[i] == p ==> IsCycle(g, w[i..] + [p])
  {
    var v := w + [p];
    forall i | 0 <= i < |v| - 1 ensures Edge(g, v[i], v[i + 1]) {
      if i < |w| - 1 { assert Edge(g, w[i], w[i + 1]); }
    }
    forall i | 0 <= i < |w| && w[i] == p ensures IsCycle(g, w[i..] + [p]) {
      var c := w[i..] + [p];
      forall j | 0 <= j < |c| - 1 ensures Edge(g, c[j], c[j + 1]) {
        assert c[j] == v[i + j] && c[j + 1] == v[i + j + 1];
      }
    }
  }

  lemma WalkFits(w: seq<nat>, u: set<nat>)
    requires Distinct(w) && forall x :: x in w ==> x in u
    ensures |w| <= |u|
  {
    DistinctSize(w);
    assert Elems(w) <= u;
    SubsetSize(Elems(w), u);
  }

  /** Following predecessors inside a stuck set must revisit a stage. */
  lemma {:induction false} StuckHasCycle(g: Graph, u: set<nat>, w: seq<nat>) returns (c: seq<nat>)
    requires Stuck(g, u) && IsWalk(g, w) && Distinct(w) && (forall x :: x in w ==> x in u)
    ensures IsCycle(g, c)
    decreases |u| - |w|
  {
    var last := w[|w| - 1];
    assert last in w && HasPredecessor(g, u, last);
    var p :| p in u && Edge(g, last, p);
    ExtendWalk(g, w, p);
    if p in w {
      var i :| 0 <= i < |w| && w[i] == p;
      c := w[i..] + [p];
    } else {
      WalkFits(w + [p], u);
      c := StuckHasCycle(g, u, w + [p]);
    }
  }

  // ---- resolving names ------------------------------------------------------------------------

  /** The first stage of the vector with the given name. */
  function Find(stages: seq<nat>, names: seq<string>, name: string): (r: Option<nat>)
    requires forall i :: 0 <= i < |stages| ==> stages[i] < |names|
    ensures r.Some? ==> r.value in stages && names[r.value] == name
    ensures r.None? ==> forall s :: s in stages ==> names[s] != name
  {
    if stages == [] then None
    else if names[stages[0]] == name then Some(stages[0])
    else Find(stages[1..], names, name)
  }

  type Dependency = (string, string)

  ghost predicate Known(deps: seq<Dependency>, stages: seq<nat>, names: seq<string>)
    requires forall i :: 0 <= i < |stages| ==> stages[i] < |names|
  {
    forall d :: d in deps ==> Find(stages, names, d.0).Some? && Find(stages, names, d.1).Some?
  }

  /** The predecessors that the dependencies give stage s, in order. */
  ghost function Preds(deps: seq<Dependency>, stages: seq<nat>, names: seq<string>, s: nat): (r: seq<nat>)
    requires forall i :: 0 <= i < |stages| ==> stages[i] < |names|
    requires Known(deps, stages, names)
    ensures forall j :: 0 <= j < |r| ==> r[j] < |names|
  {
    if deps == [] then []
    else
      var k := |deps| - 1;
      var d := deps[k];
      var own := if Find(stages, names, d.0) == Some(s) then [Find(stages, names, d.1).value] else [];
      Preds(deps[..k], stages, names, s) + own
  }

  /** The dependencies name only known stages and give the graph g. */
  ghost predicate Resolves(deps: seq<Dependency>, stages: seq<nat>, names: seq<string>, g: Graph)
    requires forall i :: 0 <= i < |stages| ==> stages[i] < |names|
  {
    Known(deps, stages, names) && |g| == |names| && forall s :: 0 <= s < |g| ==> g[s] == Preds(deps, stages, names, s)
  }

  /** The two edge lists say the same. */
  ghost predicate Mirrored(preceding: Graph, following: Graph) {
    forall s: nat, p: nat :: Edge(preceding, s, p) <==> Edge(following, p, s)
  }

  function Link(g: Graph, from: nat, to: nat): (r: Graph)
    requires from < |g|
    ensures |r| == |g|
    ensures forall s: nat, p: nat :: Edge(r, s, p) <==> Edge(g, s, p) || (s == from && p == to)
  {
    g[from := g[from] + [to]]
  }

  /** One more dependency. */
  lemma PredsNext(deps: seq<Dependency>, k: nat, stages: seq<nat>, names: seq<string>, g: Graph)
    requires k < |deps| && forall i :: 0 <= i < |stages| ==> stages[i] < |names|
    requires Resolves(deps[..k], stages, names, g)
    requires Find(stages, names, deps[k].0).Some? && Find(stages, names, deps[k].1).Some?
    ensures Resolves(deps[..k + 1], stages, names,
            Link(g, Find(stages, names, deps[k].0).value, Find(stages, names, deps[k].1).value))
  {
    assert deps[..k + 1] == deps[..k] + [deps[k]];
    assert deps[..k + 1][..k] == deps[..k];
  }

  /** With distinct names the order of the vector does not matter. */
  lemma FindAnyOrder(stages: seq<nat>, stages': seq<nat>, names: seq<string>, name: string)
    requires forall i :: 0 <= i < |stages| ==> stages[i] < |names|
    requires forall i :: 0 <= i < |stages'| ==> stages'[i] < |names|
    requires forall i, j :: 0 <= i < j < |names| ==> names[i] != names[j]
    requires forall s :: s in stages <==> s in stages'
    ensures Find(stages, names, name) == Find(stages', names, name)
  {}

  lemma {:induction false} PredsAnyOrder(
    deps: seq<Dependency>, stages: seq<nat>, stages': seq<nat>, names: seq<string>, s: nat)
    requires forall i :: 0 <= i < |stages| ==> stages[i] < |names|
    requires forall i :: 0 <= i < |stages'| ==> stages'[i] < |names|
    requires forall i, j :: 0 <= i < j < |names| ==> names[i] != names[j]
    requires forall s :: s in stages <==> s in stages'
    requires Known(deps, stages, names)
    ensures Known(deps, stages', names) && Preds(deps, stages, names, s) == Preds(deps, stages', names, s)
  {
    forall d | d in deps ensures Find(stages', names, d.0).Some? && Find(stages', names, d.1).Some? {
      FindAnyOrder(stages, stages', names, d.0);
      FindAnyOrder(stages, stages', names, d.1);
    }
    if deps != [] {
      var k := |deps| - 1;
      PredsAnyOrder(deps[..k], stages, stages', names, s);
      FindAnyOrder(stages, stages', names, deps[k].0);
      FindAnyOrder(stages, stages', names, deps[k].1);
    }
  }

  lemma ResolvesAnyOrder(deps: seq<Dependency>, stages: seq<nat>, stages': seq<nat>, names: seq<string>, g: Graph)
    requires forall i :: 0 <= i < |stages| ==> stages[i] < |names|
    requires forall i :: 0 <= i < |stages'| ==> stages'[i] < |names|
    requires forall i, j :: 0 <= i < j < |names| ==> names[i] != names[j]
    requires multiset(stages) == multiset(stages') && Resolves(deps, stages, names, g)
    ensures Resolves(deps, stages', names, g)
  {
    forall s ensures s in stages <==> s in stages' {
      assert s in stages <==> s in multiset(stages);
      assert s in stages' <==> s in multiset(stages');
    }
    PredsAnyOrder(deps, stages, stages', names, 0);
    forall s | 0 <= s < |g| ensures g[s] == Preds(deps, stages', names, s) {
      PredsAnyOrder(deps, stages, stages', names, s);
    }
  }

  /** The dependencies determine the graph. */
  lemma ResolvesOnce(deps: seq<Dependency>, stages: seq<nat>, names: seq<string>, g: Graph, g': Graph)
    requires forall i :: 0 <= i < |stages| ==> stages[i] < |names|
    requires Resolves(deps, stages, names, g) && Resolves(deps, stages, names, g')
    ensures g == g'
  {}

  // ---- sorting by number ------------------------------------------------------------------------

  /** std::sort on the stage numbers. */
  function SortBy(s: seq<nat>, number: seq<int>): (r: seq<nat>)
    requires forall i :: 0 <= i < |s| ==> s[i] < |number|
    ensures forall i :: 0 <= i < |r| ==> r[i] < |number|
  {
    if s == [] then [] else InsertBy(SortBy(s[1..], number), s[0], number)
  }

  function InsertBy(s: seq<nat>, x: nat, number: seq<int>): (r: seq<nat>)
    requires x < |number| && forall i :: 0 <= i < |s| ==> s[i] < |number|
    ensures forall i :: 0 <= i < |r| ==> r[i] < |number|
  {
    if s == [] || number[x] <= number[s[0]] then [x] + s else [s[0]] + InsertBy(s[1..], x, number)
  }

  ghost predicate SortedBy(s: seq<nat>, number: seq<int>)
    requires forall i :: 0 <= i < |s| ==> s[i] < |number|
  {
    forall i, j :: 0 <= i < j < |s| ==> number[s[i]] <= number[s[j]]
  }

  lemma {:induction false} InsertByKeeps(s: seq<nat>, x: nat, number: seq<int>)
    requires x < |number| && forall i :: 0 <= i < |s| ==> s[i] < |number|
    ensures multiset(InsertBy(s, x, number)) == multiset(s) + multiset{x}
  {
    if !(s == [] || number[x] <= number[s[0]]) {
      InsertByKeeps(s[1..], x, number);
      FirstAndRest(s);
      FirstAndRest(InsertBy(s, x, number));
    }
  }

  lemma FirstAndRest(s: seq<nat>)
    requires s != []
    ensures multiset(s) == multiset(s[1..]) + multiset{s[0]}
  {
    assert s == [s[0]] + s[1..];
  }

  lemma {:induction false} SortByKeeps(s: seq<nat>, number: seq<int>)
    requires forall i :: 0 <= i < |s| ==> s[i] < |number|
    ensures multiset(SortBy(s, number)) == multiset(s)
  {
    if s != [] {
      var t := SortBy(s[1..], number);
      SortByKeeps(s[1..], number);
      InsertByKeeps(t, s[0], number);
      FirstAndRest(s);
    }
  }

  lemma {:induction false} InsertBySorted(s: seq<nat>, x: nat, number: seq<int>)
    requires x < |number| && (forall i :: 0 <= i < |s| ==> s[i] < |number|) && SortedBy(s, number)
    ensures SortedBy(InsertBy(s, x, number), number)
  {
    if !(s == [] || number[x] <= number[s[0]]) {
      InsertBySorted(s[1..], x, number);
      InsertByKeeps(s[1..], x, number);
      var t := InsertBy(s[1..], x, number);
      forall j | 0 <= j < |t| ensures number[s[0]] <= number[t[j]] {
        assert t[j] in multiset(t);
        assert t[j] in s[1..] || t[j] == x;
      }
    }
  }

  lemma {:induction false} SortBySorted(s: seq<nat>, number: seq<int>)
    requires forall i :: 0 <= i < |s| ==> s[i] < |number|
    ensures SortedBy(SortBy(s, number), number)
  {
    if s != [] {
      SortBySorted(s[1..], number);
      InsertBySorted(SortBy(s[1..], number), s[0], number);
    }
  }

  // ---- numbering ------------------------------------------------------------------------------

  /** The numbers given so far: stage order[i] has number i, every other stage has -1, and
      predecessors were numbered first. */
  ghost predicate Numbered(g: Graph, number: seq<int>, order: seq<nat>) {
    && |number| == |g| && GraphOk(g) && Distinct(order)
    && (forall i :: 0 <= i < |order| ==> order[i] < |g| && number[order[i]] == i)
    && (forall s :: 0 <= s < |g| && s !in order ==> number[s] == -1)
    && (forall i, j :: 0 <= i < |order| && 0 <= j < |g[order[i]]| ==> 0 <= number[g[order[i]][j]] < i)
  }

  /** Every predecessor of s already has a number. */
  predicate Ready(g: Graph, number: seq<int>, s: nat)
    requires s < |g| == |number| && GraphOkAt(g, s)
  {
    forall j :: 0 <= j < |g[s]| ==> number[g[s][j]] != -1
  }

  predicate GraphOkAt(g: Graph, s: nat)
    requires s < |g|
  {
    forall j :: 0 <= j < |g[s]| ==> g[s][j] < |g|
  }

  lemma NumberNext(g: Graph, number: seq<int>, order: seq<nat>, s: nat)
    requires Numbered(g, number, order) && s < |g| && number[s] == -1 && Ready(g, number, s)
    ensures Numbered(g, number[s := |order|], order + [s])
  {
    var o, number' := order + [s], number[s := |order|];
    assert s !in order;
    forall i, j | 0 <= i < |o| && 0 <= j < |g[o[i]]| ensures 0 <= number'[g[o[i]][j]] < i {
      var p := g[o[i]][j];
      if i < |order| {
        assert 0 <= number[g[order[i]][j]] < i;
      } else {
        assert p in order;
      }
    }
  }

  lemma NumberedRanks(g: Graph, number: seq<int>, order: seq<nat>)
    requires Numbered(g, number, order) && |order| == |g|
    ensures Ranks(g, number)
    ensures forall s :: 0 <= s < |g| ==> 0 <= number[s] < |g| && order[number[s]] == s
  {
    DistinctBelow(order, |g|);
    forall s | 0 <= s < |g| ensures 0 <= number[s] < |g| && order[number[s]] == s {
      assert s in order;
      var i :| 0 <= i < |order| && order[i] == s;
    }
    forall s: nat, p: nat | Edge(g, s, p) && p < |g| ensures number[p] < number[s] {
      var j :| 0 <= j < |g[s]| && g[s][j] == p;
      var i := number[s];
      assert order[i] == s;
      assert number[g[order[i]][j]] < i;
    }
  }

  /** The stages that have a number. */
  ghost function Assigned(number: seq<int>): set<nat> {
    set s | s in Below(|number|) && s < |number| && number[s] != -1
  }

  lemma AssignedSize(g: Graph, number: seq<int>, order: seq<nat>)
    requires Numbered(g, number, order)
    ensures |Assigned(number)| == |order|
  {
    BelowSize(|number|);
    DistinctSize(order);
    forall s ensures s in Assigned(number) <==> s in Elems(order) {
      if s in Elems(order) {
        var i :| 0 <= i < |order| && order[i] == s;
      }
    }
    assert Assigned(number) == Elems(order);
  }

  /** The unnumbered stages, none of which is ready. */
  ghost function Unnumbered(number: seq<int>): set<nat> {
    set s | s in Below(|number|) && s < |number| && number[s] == -1
  }

  /** A pass that numbers nothing exposes a circle. */
  lemma NothingReady(g: Graph, number: seq<int>, order: seq<nat>) returns (c: seq<nat>)
    requires Numbered(g, number, order) && |order| < |g|
    requires forall s :: 0 <= s < |g| && number[s] == -1 ==> !Ready(g, number, s)
    ensures IsCycle(g, c)
  {
    var u := Unnumbered(number);
    UnnumberedStuck(g, number);
    var s := Missing(order, |g|);
    BelowSize(|number|);
    assert number[s] == -1 && s in u;
    assert IsWalk(g, [s]) && Distinct([s]);
    c := StuckHasCycle(g, u, [s]);
  }

  lemma UnnumberedStuck(g: Graph, number: seq<int>)
    requires GraphOk(g) && |number| == |g|
    requires forall s :: 0 <= s < |g| && number[s] == -1 ==> !Ready(g, number, s)
    ensures Stuck(g, Unnumbered(number))
  {
    var u := Unnumbered(number);
    BelowSize(|number|);
    forall s | s in u ensures HasPredecessor(g, u, s) {
      var j :| 0 <= j < |g[s]| && number[g[s][j]] == -1;
      assert g[s][j] in u && Edge(g, s, g[s][j]);
    }
  }

  lemma Missing(order: seq<nat>, n: nat) returns (s: nat)
    requires Distinct(order) && |order| < n
    ensures s < n && s !in order
  {
    DistinctSize(order);
    BelowSize(n);
    if Below(n) <= Elems(order) {
      SubsetSize(Below(n), Elems(order));
    }
    s :| s in Below(n) && s !in Elems(order);
  }

  /** Strictly increasing numbers below n, n of them, are 0, 1, 2, ... */
  lemma {:induction false} SortedNumbers(s: seq<nat>, number: seq<int>, k: nat)
    requires Distinct(s) && k < |s| == |number| && (forall i :: 0 <= i < |s| ==> s[i] < |number|)
    requires SortedBy(s, number) && forall i :: 0 <= i < |number| ==> 0 <= number[i] < |number|
    requires forall i, j :: 0 <= i < j < |number| ==> number[i] != number[j]
    ensures number[s[k]] >= k && number[s[|s| - 1 - k]] <= |s| - 1 - k
  {
    if k > 0 {
      SortedNumbers(s, number, k - 1);
      assert s[k - 1] != s[k] && s[|s| - 1 - k] != s[|s| - k];
    }
  }

  ghost predicate Permuted(stages: seq<nat>, n: nat) {
    Distinct(stages) && |stages| == n && forall i :: 0 <= i < |stages| ==> stages[i] < n
  }

  lemma PermutedByMultiset(s: seq<nat>, t: seq<nat>, n: nat)
    requires Permuted(s, n) && multiset(s) == multiset(t)
    ensures Permuted(t, n) && forall x :: x in s <==> x in t
  {
    assert |multiset(s)| == |s| && |multiset(t)| == |t|;
    forall x ensures x in s <==> x in t {
      assert x in s <==> x in multiset(s);
      assert x in t <==> x in multiset(t);
    }
    forall i | 0 <= i < |t| ensures t[i] < n {
      assert t[i] in s;
    }
    forall i, j | 0 <= i < j < |t| ensures t[i] != t[j] {
      if t[i] == t[j] {
        TwiceCounted(t, i, j);
        OnceCounted(s, t[i]);
      }
    }
  }

  lemma TwiceCounted(t: seq<nat>, i: nat, j: nat)
    requires i < j < |t| && t[i] == t[j]
    ensures multiset(t)[t[i]] >= 2
  {
    assert t == t[..j] + [t[j]] + t[j + 1..];
    assert t[i] in t[..j];
  }

  lemma {:induction false} OnceCounted(s: seq<nat>, x: nat)
    requires Distinct(s)
    ensures multiset(s)[x] <= 1
  {
    if s != [] {
      OnceCounted(s[1..], x);
      assert s == [s[0]] + s[1..];
      if s[0] == x { assert x !in s[1..]; }
    }
  }

  /** Sorting by number puts the stage with number i at index i. */
  lemma SortGivesIndex(stages: seq<nat>, number: seq<int>, order: seq<nat>, g: Graph)
    requires Permuted(stages, |g|) && Numbered(g, number, order) && |order| == |g|
    ensures var t := SortBy(stages, number);
            && Permuted(t, |g|) && (forall x :: x in stages <==> x in t)
            && forall i :: 0 <= i < |t| ==> number[t[i]] == i
  {
    var t := SortBy(stages, number);
    SortByKeeps(stages, number);
    SortBySorted(stages, number);
    PermutedByMultiset(stages, t, |g|);
    NumberedRanks(g, number, order);
    forall i, j | 0 <= i < j < |number| ensures number[i] != number[j] {
      assert order[number[i]] == i && order[number[j]] == j;
    }
    forall i | 0 <= i < |t| ensures number[t[i]] == i {
      SortedNumbers(t, number, i);
      SortedNumbers(t, number, |t| - 1 - i);
    }
  }

  // ---- reruns ---------------------------------------------------------------------------------

  /** Every stage of the vector stands after its predecessors. */
  ghost predicate Topological(g: Graph, stages: seq<nat>) {
    forall i, j :: 0 <= i < |stages| && stages[i] < |g| && 0 <= j < |g[stages[i]]| ==> g[stages[i]][j] in stages[..i]
  }

  /** In such a vector, a pass that has numbered everything so far finds the next stage ready. */
  lemma NextIsReady(g: Graph, number: seq<int>, stages: seq<nat>, i: nat)
    requires Permuted(stages, |g|) && Topological(g, stages) && i < |stages|
    requires Numbered(g, number, stages[..i])
    ensures number[stages[i]] == -1 && Ready(g, number, stages[i])
  {
    forall j | 0 <= j < |g[stages[i]]| ensures number[g[stages[i]][j]] != -1 {
      var k :| 0 <= k < i && stages[..i][k] == g[stages[i]][j];
    }
  }

  /** The sorted vector is such a vector. */
  lemma SortedIsTopological(g: Graph, number: seq<int>, stages: seq<nat>)
    requires GraphOk(g) && Permuted(stages, |g|) && Ranks(g, number)
    requires forall i :: 0 <= i < |stages| ==> number[stages[i]] == i
    ensures Topological(g, stages)
  {
    DistinctBelow(stages, |g|);
    forall i, j | 0 <= i < |stages| && 0 <= j < |g[stages[i]]| ensures g[stages[i]][j] in stages[..i] {
      var p := g[stages[i]][j];
      assert Edge(g, stages[i], p);
      assert p in stages;
      var k :| 0 <= k < |stages| && stages[k] == p;
      assert stages[..i][k] == p;
    }
  }

  lemma SameNumbers(stages: seq<nat>, a: seq<int>, b: seq<int>)
    requires Permuted(stages, |a|) && |a| == |b|
    requires forall i :: 0 <= i < |stages| ==> a[stages[i]] == i == b[stages[i]]
    ensures a == b
  {
    DistinctBelow(stages, |a|);
    forall s | 0 <= s < |a| ensures a[s] == b[s] {
      assert s in stages;
    }
  }

  lemma SameIndexedVector(s: seq<nat>, t: seq<nat>, number: seq<int>)
    requires Permuted(s, |number|) && Permuted(t, |number|)
    requires forall i :: 0 <= i < |s| ==> number[s[i]] == i == number[t[i]]
    ensures s == t
  {
    DistinctBelow(t, |number|);
    forall i | 0 <= i < |s| ensures s[i] == t[i] {
      assert s[i] in t;
      var k :| 0 <= k < |t| && t[k] == s[i];
    }
  }

  // ---- the registry -----------------------------------------------------------------------------

  class InitStageRegistry {
    /** What each stage object holds, by address. */
    var names: seq<string>
    var number: seq<int>
    var preceding: Graph
    var following: Graph
    /** The registry's own fields. */
    var stages: seq<nat>
    var dependencies: seq<Dependency>
    var numInitStages: int

    ghost predicate Valid()
      reads this
    {
      |number| == |preceding| == |following| == |names| && Permuted(stages, |names|)
    }

    constructor ()
      ensures Valid() && stages == [] && dependencies == [] && numInitStages == -1
    {
      names, number, preceding, following, stages, dependencies := [], [], [], [], [], [];
      numInitStages := -1;
    }

    method AddInitStage(name: string) returns (s: nat)
      requires Valid()
      modifies this
      ensures Valid() && numInitStages == -1
      ensures names == old(names) + [name] && s == |old(names)| && stages == old(stages) + [s]
      ensures dependencies == old(dependencies)
    {
      s := |names|;
      names := names + [name];
      number, preceding, following := number + [-1], preceding + [[]], following + [[]];
      stages := stages + [s];
      numInitStages := -1;
    }

    method AddInitStageDependency(source: string, target: string)
      requires Valid()
      modifies this`dependencies, this`numInitStages
      ensures Valid() && numInitStages == -1 && dependencies == old(dependencies) + [(source, target)]
    {
      dependencies := dependencies + [(source, target)];
      numInitStages := -1;
    }

    method GetInitStage(name: string) returns (r: Option<nat>)
      requires Valid()
      ensures r == Find(stages, names, name)
    {
      var i := 0;
      while i < |stages|
        invariant i <= |stages| && Find(stages, names, name) == Find(stages[i..], names, name)
      {
        if names[stages[i]] == name { return Some(stages[i]); }
        i := i + 1;
      }
      return None;
    }

    /** Clear the stages and record every dependency on the two stages it names. */
    method ResolveDependencies() returns (outcome: Outcome)
      requires Valid()
      modifies this`number, this`preceding, this`following
      ensures Valid()
      ensures forall s :: 0 <= s < |number| ==> number[s] == -1
      ensures outcome.Done? <==> Known(dependencies, stages, names)
      ensures outcome.Done? ==> GraphOk(preceding) && Resolves(dependencies, stages, names, preceding)
      ensures outcome.Done? ==> Mirrored(preceding, following)
      ensures outcome.UnknownStage? ==> Find(stages, names, outcome.name).None?
      ensures !outcome.Circle?
    {
      number := seq(|names|, _ => -1);
      preceding := seq(|names|, _ => []);
      following := seq(|names|, _ => []);
      var k := 0;
      while k < |dependencies|
        invariant k <= |dependencies| && Valid()
        invariant forall s :: 0 <= s < |number| ==> number[s] == -1
        invariant Resolves(dependencies[..k], stages, names, preceding) && Mirrored(preceding, following)
      {
        var d := dependencies[k];
        var f := GetInitStage(d.0);
        if f.None? { assert d in dependencies; return UnknownStage(d.0); }
        var p := GetInitStage(d.1);
        if p.None? { assert d in dependencies; return UnknownStage(d.1); }
        PredsNext(dependencies, k, stages, names, preceding);
        following := Link(following, p.value, f.value);
        preceding := Link(preceding, f.value, p.value);
        k := k + 1;
      }
      assert dependencies[..k] == dependencies;
      return Done;
    }

    method PredecessorsNumbered(s: nat) returns (ready: bool)
      requires s < |preceding| == |number| && GraphOk(preceding)
      ensures ready == Ready(preceding, number, s)
    {
      var j := 0;
      while j < |preceding[s]|
        invariant j <= |preceding[s]|
        invariant forall k :: 0 <= k < j ==> number[preceding[s][k]] != -1
      {
        if number[preceding[s][j]] == -1 { return false; }
        j := j + 1;
      }
      return true;
    }

    /** One pass over the vector. */
    method Pass(ghost order: seq<nat>) returns (progress: bool, ghost order': seq<nat>)
      requires Valid() && Numbered(preceding, number, order) && numInitStages == |order|
      modifies this`number, this`numInitStages
      ensures Valid() && Numbered(preceding, number, order') && numInitStages == |order'|
      ensures |order| <= |order'| <= |names| && (progress ==> |order| < |order'|)
      ensures !progress ==> order' == order
      ensures !progress ==> forall s :: 0 <= s < |names| && number[s] == -1 ==> !Ready(preceding, number, s)
      ensures order == [] && Topological(preceding, stages) ==> order' == stages
    {
      progress, order' := false, order;
      DistinctBelow(stages, |names|);
      var i := 0;
      while i < |stages|
        invariant i <= |stages| && Valid() && Numbered(preceding, number, order') && numInitStages == |order'|
        invariant |order| <= |order'| && (progress ==> |order| < |order'|) && (!progress ==> order' == order)
        invariant !progress ==> forall k :: 0 <= k < i && number[stages[k]] == -1 ==>
                    !Ready(preceding, number, stages[k])
        invariant order == [] && Topological(preceding, stages) ==> order' == stages[..i]
      {
        var s := stages[i];
        if order == [] && Topological(preceding, stages) { NextIsReady(preceding, number, stages, i); }
        if number[s] == -1 {
          var ready := PredecessorsNumbered(s);
          if ready {
            NumberNext(preceding, number, order', s);
            number := number[s := numInitStages];
            numInitStages := numInitStages + 1;
            progress, order' := true, order' + [s];
          }
        }
        i := i + 1;
      }
      DistinctBelow(order', |names|);
      if !progress {
        forall s | 0 <= s < |names| && number[s] == -1 ensures !Ready(preceding, number, s) {
          assert s in stages;
        }
      }
    }

    /** Passes until every stage has a number, or until one numbers nothing. */
    method NumberStages() returns (outcome: Outcome, ghost order: seq<nat>)
      requires Valid() && GraphOk(preceding) && forall s :: 0 <= s < |number| ==> number[s] == -1
      modifies this`number, this`numInitStages
      ensures Valid() && Numbered(preceding, number, order) && numInitStages == |order|
      ensures outcome == Done || outcome == Circle
      ensures outcome.Done? ==> |order| == |names|
      ensures outcome.Circle? ==> |order| < |names| && exists w :: IsCycle(preceding, w)
      ensures Topological(preceding, stages) ==> outcome.Done? && order == stages
    {
      numInitStages, order := 0, [];
      while numInitStages < |stages|
        invariant Valid() && Numbered(preceding, number, order) && numInitStages == |order| <= |names|
        invariant Topological(preceding, stages) ==> order == [] || order == stages
        decreases |stages| - numInitStages
      {
        var progress;
        progress, order := Pass(order);
        if !progress {
          ghost var c := NothingReady(preceding, number, order);
          return Circle, order;
        }
      }
      return Done, order;
    }

    method AssignInitStageNumbers() returns (outcome: Outcome)
      requires Valid()
      modifies this`number, this`preceding, this`following, this`stages, this`numInitStages
      ensures Valid() && multiset(stages) == multiset(old(stages))
      ensures outcome.UnknownStage? <==> !old(Known(dependencies, stages, names))
      ensures outcome.UnknownStage? ==>
                old(Find(stages, names, outcome.name)).None? && numInitStages == old(numInitStages)
      ensures !outcome.UnknownStage? ==> GraphOk(preceding) && Resolves(dependencies, old(stages), names, preceding)
      ensures !outcome.UnknownStage? ==> Mirrored(preceding, following)
      ensures outcome.Done? ==> forall w :: !IsCycle(preceding, w)
      ensures outcome.Circle? ==> exists w :: IsCycle(preceding, w)
      ensures outcome.Done? ==> Ranks(preceding, number) && numInitStages == |names|
      ensures outcome.Done? ==> forall i :: 0 <= i < |stages| ==> number[stages[i]] == i
      ensures !outcome.Done? ==> stages == old(stages)
      ensures outcome.Circle? ==> 0 <= numInitStages == |Assigned(number)| < |names|
      ensures !outcome.UnknownStage? && Topological(preceding, old(stages)) ==> outcome.Done? && stages == old(stages)
    {
      outcome := ResolveDependencies();
      if !outcome.Done? { return; }
      ghost var order;
      outcome, order := NumberStages();
      if outcome.Circle? {
        AssignedSize(preceding, number, order);
        return;
      }
      SortStages(order);
    }

    /** Lines 73-75, once every stage has a number. */
    method SortStages(ghost order: seq<nat>)
      requires Valid() && Numbered(preceding, number, order) && |order| == |names|
      modifies this`stages
      ensures Valid() && multiset(stages) == multiset(old(stages)) && Ranks(preceding, number)
      ensures forall w :: !IsCycle(preceding, w)
      ensures forall i :: 0 <= i < |stages| ==> number[stages[i]] == i
      ensures order == old(stages) ==> stages == old(stages)
    {
      NumberedRanks(preceding, number, order);
      forall w ensures !IsCycle(preceding, w) { RankedHasNoCycle(preceding, number, w); }
      SortGivesIndex(stages, number, order, preceding);
      SortByKeeps(stages, number);
      ghost var before := stages;
      stages := SortBy(stages, number);
      if order == before { SameIndexedVector(before, stages, number); }
    }

    /** getNumInitStages: numbers the stages first unless the count is already there. */
    method GetNumInitStages() returns (outcome: Outcome, count: int)
      requires Valid() && numInitStages >= -1
      modifies this`number, this`preceding, this`following, this`stages, this`numInitStages
      ensures Valid() && numInitStages >= -1 && count == numInitStages
      ensures old(numInitStages) != -1 ==> outcome == Done && count == old(numInitStages)
      ensures old(numInitStages) != -1 ==> number == old(number) && stages == old(stages) && preceding == old(preceding)
      ensures old(numInitStages) == -1 ==> (outcome.UnknownStage? <==> !old(Known(dependencies, stages, names)))
      ensures old(numInitStages) == -1 && outcome.UnknownStage? ==> count == -1 && stages == old(stages)
      ensures old(numInitStages) == -1 && !outcome.UnknownStage? ==>
                Resolves(dependencies, old(stages), names, preceding)
      ensures old(numInitStages) == -1 && outcome.Done? ==> count == |names| && forall w :: !IsCycle(preceding, w)
      ensures old(numInitStages) == -1 && outcome.Circle? ==>
                0 <= count == |Assigned(number)| < |names| && exists w :: IsCycle(preceding, w)
    {
      outcome := Done;
      if numInitStages == -1 { outcome := AssignInitStageNumbers(); }
      count := numInitStages;
    }

    /** Asking twice for an outdated count. The second request reports a circle no more: it returns
        the full count exactly when there is none, else the number of stages that got a number. */
    method GetNumInitStagesTwice() returns (first: Outcome, second: Outcome, count: int)
      requires Valid() && numInitStages == -1
      modifies this`number, this`preceding, this`following, this`stages, this`numInitStages
      ensures first.UnknownStage? <==> !old(Known(dependencies, stages, names))
      ensures first.UnknownStage? ==> second.UnknownStage?
      ensures !first.UnknownStage? ==> second == Done && Resolves(dependencies, old(stages), names, preceding)
      ensures !first.UnknownStage? ==> (first.Circle? <==> exists w :: IsCycle(preceding, w))
      ensures !first.UnknownStage? ==> (count == |names| <==> forall w :: !IsCycle(preceding, w))
      ensures first.Circle? ==> count == |Assigned(number)| < |names|
    {
      first, count := GetNumInitStages();
      second, count := GetNumInitStages();
    }

    /** Numbering again changes nothing. */
    method Renumber() returns (first: Outcome, second: Outcome, ghost number': seq<int>, ghost stages': seq<nat>)
      requires Valid() && forall i, j :: 0 <= i < j < |names| ==> names[i] != names[j]
      modifies this`number, this`preceding, this`following, this`stages, this`numInitStages
      ensures Valid() && (first.Done? ==> second.Done? && number == number' && stages == stages')
      ensures first.Done? ==> Ranks(preceding, number')
    {
      first := AssignInitStageNumbers();
      number', stages' := number, stages;
      ghost var g, before := preceding, old(stages);
      if first.Done? {
        ResolvesAnyOrder(dependencies, before, stages, names, g);
        SortedIsTopological(g, number, stages);
      }
      second := AssignInitStageNumbers();
      if first.Done? {
        ResolvesOnce(dependencies, stages', names, preceding, g);
        SameNumbers(stages, number, number');
      }
    }
  }
}
