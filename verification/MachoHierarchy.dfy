/**
 The state tree of a Macho machine and what a transition in it means: which states are
 left, which are entered, what the history of a state is.
 */
module MachoHierarchy {
  import opened Options

  /** The strategy selected by the HISTORY and DEEPHISTORY macros. */
  datatype HistoryKind = NoHistory | Shallow | Deep

  /** One record per state class: its superstate, its distance from Root, its options.
      State 0 is Root. */
  datatype Spec = Spec(parent: nat, depth: nat, kind: HistoryKind, hasBox: bool, persistent: bool)

  datatype Hierarchy = Hierarchy(states: seq<Spec>, height: nat)

  /** What the C++ class hierarchy guarantees: every chain of superstates ends in Root. */
  ghost predicate WellFormed(h: Hierarchy) {
    && 0 < |h.states| && h.states[0].depth == 0 && h.states[0].kind == NoHistory
    && forall s :: 0 < s < |h.states| ==> SpecOk(h, s)
  }

  ghost predicate SpecOk(h: Hierarchy, s: nat)
    requires s < |h.states|
  {
    && h.states[s].parent < |h.states|
    && h.states[s].depth == h.states[h.states[s].parent].depth + 1
    && h.states[s].depth <= h.height
  }

  predicate IsState(h: Hierarchy, s: nat) {
    s < |h.states|
  }

  function Parent(h: Hierarchy, s: nat): (p: nat)
    requires WellFormed(h) && IsState(h, s) && s != 0
    ensures IsState(h, p) && Depth(h, p) + 1 == Depth(h, s) <= h.height
  {
    assert SpecOk(h, s);
    h.states[s].parent
  }

  function Depth(h: Hierarchy, s: nat): nat
    requires IsState(h, s)
  {
    h.states[s].depth
  }

  /** isChild: is `a` this state or one of its superstates? */
  predicate IsChild(h: Hierarchy, s: nat, a: nat)
    requires WellFormed(h) && IsState(h, s)
    decreases Depth(h, s)
  {
    s == a || (s != 0 && IsChild(h, Parent(h, s), a))
  }

  ghost predicate Proper(h: Hierarchy, s: nat, a: nat)
    requires WellFormed(h) && IsState(h, s)
  {
    s != a && IsChild(h, s, a)
  }

  /** The states from the top state down to s, without Root. */
  ghost function Chain(h: Hierarchy, s: nat): seq<nat>
    requires WellFormed(h) && IsState(h, s)
    decreases Depth(h, s)
  {
    if s == 0 then [] else Chain(h, Parent(h, s)) + [s]
  }

  lemma {:induction false} ChildDepth(h: Hierarchy, s: nat, a: nat)
    requires WellFormed(h) && IsState(h, s) && IsChild(h, s, a)
    ensures IsState(h, a) && Depth(h, a) <= Depth(h, s) && (s != a ==> Depth(h, a) < Depth(h, s))
    decreases Depth(h, s)
  {
    if s != a { ChildDepth(h, Parent(h, s), a); }
  }

  lemma {:induction false} RootAbove(h: Hierarchy, s: nat)
    requires WellFormed(h) && IsState(h, s)
    ensures IsChild(h, s, 0)
    decreases Depth(h, s)
  {
    if s != 0 { RootAbove(h, Parent(h, s)); }
  }

  lemma {:induction false} ChildTrans(h: Hierarchy, s: nat, a: nat, b: nat)
    requires WellFormed(h) && IsState(h, s) && IsState(h, a) && IsChild(h, s, a) && IsChild(h, a, b)
    ensures IsChild(h, s, b)
    decreases Depth(h, s)
  {
    if s != a { ChildTrans(h, Parent(h, s), a, b); }
  }

  /** Chain lists exactly the superstates below Root. */
  lemma {:induction false} ChainMembers(h: Hierarchy, s: nat, a: nat)
    requires WellFormed(h) && IsState(h, s)
    ensures a in Chain(h, s) <==> a != 0 && IsChild(h, s, a)
    decreases Depth(h, s)
  {
    if s == 0 {
    } else {
      ChainMembers(h, Parent(h, s), a);
    }
  }

  // ---- transitions --------------------------------------------------------------------

  datatype Action = Entry(s: nat) | Exit(s: nat)

  /** exit: leave c and its superstates up to the first that properly contains next. */
  function ExitActions(h: Hierarchy, c: nat, next: nat): seq<Action>
    requires WellFormed(h) && IsState(h, c) && IsState(h, next)
    decreases Depth(h, c)
  {
    if c != 0 && (c == next || !IsChild(h, next, c)) then [Exit(c)] + ExitActions(h, Parent(h, c), next) else []
  }

  function ExitStop(h: Hierarchy, c: nat, next: nat): (a: nat)
    requires WellFormed(h) && IsState(h, c) && IsState(h, next)
    ensures IsState(h, a)
    decreases Depth(h, c)
  {
    if c != 0 && (c == next || !IsChild(h, next, c)) then ExitStop(h, Parent(h, c), next) else c
  }

  /** entry: enter the superstates of s that do not contain prev, then s. */
  function EntryActions(h: Hierarchy, s: nat, prev: nat, first: bool): seq<Action>
    requires WellFormed(h) && IsState(h, s) && IsState(h, prev)
    decreases Depth(h, s)
  {
    if s != 0 && (first || !IsChild(h, prev, s)) then EntryActions(h, Parent(h, s), prev, false) + [Entry(s)] else []
  }

  function EntryStop(h: Hierarchy, s: nat, prev: nat, first: bool): (a: nat)
    requires WellFormed(h) && IsState(h, s) && IsState(h, prev)
    ensures IsState(h, a)
    decreases Depth(h, s)
  {
    if s != 0 && (first || !IsChild(h, prev, s)) then EntryStop(h, Parent(h, s), prev, false) else s
  }

  /** The exits stop at the deepest state around c that properly contains next. */
  lemma {:induction false} ExitStopIs(h: Hierarchy, c: nat, next: nat, x: nat)
    requires WellFormed(h) && IsState(h, c) && IsState(h, next) && IsState(h, x)
    ensures var a := ExitStop(h, c, next);
            && IsChild(h, c, a) && (a == 0 || Proper(h, next, a))
            && (IsChild(h, c, x) && Proper(h, next, x) ==> IsChild(h, a, x))
    decreases Depth(h, c)
  {
    if c != 0 && (c == next || !IsChild(h, next, c)) {
      ExitStopIs(h, Parent(h, c), next, x);
    }
  }

  lemma {:induction false} EntryStopIs(h: Hierarchy, s: nat, prev: nat, first: bool, x: nat)
    requires WellFormed(h) && IsState(h, s) && IsState(h, prev) && IsState(h, x)
    ensures var b := EntryStop(h, s, prev, first);
            && IsChild(h, s, b) && (first && s != 0 ==> s != b) && (b == 0 || IsChild(h, prev, b))
            && (IsChild(h, prev, x) && IsChild(h, s, x) && (first ==> s != x) ==> IsChild(h, b, x))
    decreases Depth(h, s)
  {
    if s != 0 && (first || !IsChild(h, prev, s)) {
      EntryStopIs(h, Parent(h, s), prev, false, x);
      if s == EntryStop(h, s, prev, first) {
        ChildDepth(h, Parent(h, s), s);
      }
    }
  }

  /** Exits and entries of a transition meet in the same state. */
  lemma MeetingPoint(h: Hierarchy, c: nat, next: nat)
    requires WellFormed(h) && IsState(h, c) && IsState(h, next)
    ensures ExitStop(h, c, next) == EntryStop(h, next, c, true)
  {
    var a, b := ExitStop(h, c, next), EntryStop(h, next, c, true);
    ExitStopIs(h, c, next, b);
    EntryStopIs(h, next, c, true, a);
    RootAbove(h, a);
    RootAbove(h, b);
    if next == 0 {
      ChildDepth(h, next, b);
    }
    assert IsChild(h, a, b) && IsChild(h, b, a);
    ChildDepth(h, a, b);
    ChildDepth(h, b, a);
  }

  // ---- nesting of the action trace ---------------------------------------------------------

  /** Replaying one action on the stack of entered states; None if the nesting is broken. */
  ghost function Step(h: Hierarchy, st: Option<seq<nat>>, a: Action): Option<seq<nat>>
    requires WellFormed(h)
  {
    if st.None? then None
    else match a
         case Entry(s) =>
           if IsState(h, s) && s != 0 && st.value == Chain(h, Parent(h, s)) then Some(st.value + [s]) else None
         case Exit(s) =>
           if st.value != [] && st.value[|st.value| - 1] == s then Some(st.value[..|st.value| - 1]) else None
  }

  ghost function Replay(h: Hierarchy, st: Option<seq<nat>>, acts: seq<Action>): Option<seq<nat>>
    requires WellFormed(h)
    decreases acts
  {
    if acts == [] then st else Replay(h, Step(h, st, acts[0]), acts[1..])
  }

  /** The states entered and not exited, if the trace is properly nested. */
  ghost function Entered(h: Hierarchy, trace: seq<Action>): Option<seq<nat>>
    requires WellFormed(h)
  {
    Replay(h, Some([]), trace)
  }

  lemma {:induction false} ReplayAppend(h: Hierarchy, st: Option<seq<nat>>, a: seq<Action>, b: seq<Action>)
    requires WellFormed(h)
    ensures Replay(h, st, a + b) == Replay(h, Replay(h, st, a), b)
    decreases a
  {
    if a == [] {
      assert a + b == b;
    } else {
      assert (a + b)[0] == a[0] && (a + b)[1..] == a[1..] + b;
      ReplayAppend(h, Step(h, st, a[0]), a[1..], b);
    }
  }

  lemma ReplayOne(h: Hierarchy, st: Option<seq<nat>>, a: Action)
    requires WellFormed(h)
    ensures Replay(h, st, [a]) == Step(h, st, a)
  {
    assert [a][1..] == [];
  }

  lemma ExitStep(h: Hierarchy, c: nat)
    requires WellFormed(h) && IsState(h, c) && c != 0
    ensures Step(h, Some(Chain(h, c)), Exit(c)) == Some(Chain(h, Parent(h, c)))
  {
    var up := Chain(h, Parent(h, c));
    assert (up + [c])[..|up|] == up;
  }

  lemma {:induction false} ExitsNest(h: Hierarchy, c: nat, next: nat)
    requires WellFormed(h) && IsState(h, c) && IsState(h, next)
    ensures Replay(h, Some(Chain(h, c)), ExitActions(h, c, next)) == Some(Chain(h, ExitStop(h, c, next)))
    decreases Depth(h, c)
  {
    if c != 0 && (c == next || !IsChild(h, next, c)) {
      var rest := ExitActions(h, Parent(h, c), next);
      ExitStep(h, c);
      ReplayAppend(h, Some(Chain(h, c)), [Exit(c)], rest);
      ReplayOne(h, Some(Chain(h, c)), Exit(c));
      ExitsNest(h, Parent(h, c), next);
    }
  }

  lemma {:induction false} EntriesNest(h: Hierarchy, s: nat, prev: nat, first: bool)
    requires WellFormed(h) && IsState(h, s) && IsState(h, prev)
    ensures Replay(h, Some(Chain(h, EntryStop(h, s, prev, first))), EntryActions(h, s, prev, first)) ==
            Some(Chain(h, s))
    decreases Depth(h, s)
  {
    if s != 0 && (first || !IsChild(h, prev, s)) {
      EntriesNest(h, Parent(h, s), prev, false);
      var st := Some(Chain(h, EntryStop(h, s, prev, first)));
      ReplayAppend(h, st, EntryActions(h, Parent(h, s), prev, false), [Entry(s)]);
      ReplayOne(h, Some(Chain(h, Parent(h, s))), Entry(s));
    }
  }

  /** The actions of one transition. */
  function TransitionActions(h: Hierarchy, c: nat, next: nat): seq<Action>
    requires WellFormed(h) && IsState(h, c) && IsState(h, next)
  {
    ExitActions(h, c, next) + EntryActions(h, next, c, true)
  }

  /** A transition from c leaves exactly next and its superstates entered. */
  lemma TransitionNests(h: Hierarchy, trace: seq<Action>, c: nat, next: nat)
    requires WellFormed(h) && IsState(h, c) && IsState(h, next) && Entered(h, trace) == Some(Chain(h, c))
    ensures Entered(h, trace + TransitionActions(h, c, next)) == Some(Chain(h, next))
  {
    ReplayAppend(h, Some([]), trace, TransitionActions(h, c, next));
    ReplayAppend(h, Some(Chain(h, c)), ExitActions(h, c, next), EntryActions(h, next, c, true));
    ExitsNest(h, c, next);
    MeetingPoint(h, c, next);
    EntriesNest(h, next, c, true);
  }

  /** All actions of a run that visits the given states one transition after another. */
  ghost function RunActions(h: Hierarchy, c: nat, targets: seq<nat>): seq<Action>
    requires WellFormed(h) && IsState(h, c) && forall t :: t in targets ==> IsState(h, t)
    decreases targets
  {
    if targets == [] then [] else TransitionActions(h, c, targets[0]) + RunActions(h, targets[0], targets[1..])
  }

  lemma {:induction false} RunNests(h: Hierarchy, c: nat, targets: seq<nat>)
    requires WellFormed(h) && IsState(h, c) && forall t :: t in targets ==> IsState(h, t)
    ensures var last := if targets == [] then c else targets[|targets| - 1];
            IsState(h, last) && Replay(h, Some(Chain(h, c)), RunActions(h, c, targets)) == Some(Chain(h, last))
    decreases targets
  {
    if targets != [] {
      var t, rest := targets[0], targets[1..];
      ReplayAppend(h, Some(Chain(h, c)), TransitionActions(h, c, t), RunActions(h, t, rest));
      ReplayAppend(h, Some(Chain(h, c)), ExitActions(h, c, t), EntryActions(h, t, c, true));
      ExitsNest(h, c, t);
      MeetingPoint(h, c, t);
      EntriesNest(h, t, c, true);
      RunNests(h, t, rest);
    }
  }

  /** Whatever transitions a machine makes from Root, its trace is properly nested and the
      entered states are the last one and its superstates; back at Root none is left. */
  lemma RunFromRootNests(h: Hierarchy, targets: seq<nat>)
    requires WellFormed(h) && forall t :: t in targets ==> IsState(h, t)
    ensures var last := if targets == [] then 0 else targets[|targets| - 1];
            Entered(h, RunActions(h, 0, targets)) == Some(Chain(h, last)) && (last == 0 ==> Chain(h, last) == [])
  {
    RunNests(h, 0, targets);
  }

  // ---- history ----------------------------------------------------------------------------

  type History = seq<Option<nat>>

  /** The direct substate of a on the way to s. */
  function Toward(h: Hierarchy, s: nat, a: nat): (k: nat)
    requires WellFormed(h) && IsState(h, s) && IsState(h, a) && Proper(h, s, a)
    ensures IsState(h, k) && k != 0 && Parent(h, k) == a && IsChild(h, s, k)
    decreases Depth(h, s)
  {
    if Parent(h, s) == a then s else Toward(h, Parent(h, s), a)
  }

  /** Every recorded history lies properly inside its owner. */
  ghost predicate HistoryOk(h: Hierarchy, hist: History)
    requires WellFormed(h)
  {
    |hist| == |h.states| &&
    forall a :: 0 <= a < |hist| && hist[a].Some? ==> IsState(h, hist[a].value) && Proper(h, hist[a].value, a)
  }

  /** The history after leaving a state. */
  ghost function SavedHistory(h: Hierarchy, hist: History, left: nat): (r: History)
    requires WellFormed(h) && IsState(h, left) && |hist| == |h.states|
    ensures |r| == |hist|
  {
    seq(|hist|, a requires 0 <= a < |hist| =>
      if Proper(h, left, a) && h.states[a].kind == Shallow then Some(Toward(h, left, a))
      else if Proper(h, left, a) && h.states[a].kind == Deep then Some(left)
      else hist[a])
  }

  lemma SavedIs(h: Hierarchy, hist: History, hist': History, left: nat)
    requires WellFormed(h) && IsState(h, left) && |hist| == |h.states|
    ensures Saved(h, hist, hist', left) <==> hist' == SavedHistory(h, hist, left)
  {}

  /** What saving the history of a state that is being left records. */
  ghost predicate Saved(h: Hierarchy, hist: History, hist': History, left: nat)
    requires WellFormed(h) && IsState(h, left)
  {
    |hist| == |hist'| == |h.states| &&
    forall a :: 0 <= a < |hist| ==>
      hist'[a] == if Proper(h, left, a) && h.states[a].kind == Shallow then Some(Toward(h, left, a))
                  else if Proper(h, left, a) && h.states[a].kind == Deep then Some(left)
                  else hist[a]
  }

  lemma SavedKeepsOk(h: Hierarchy, hist: History, hist': History, left: nat)
    requires WellFormed(h) && IsState(h, left) && HistoryOk(h, hist) && Saved(h, hist, hist', left)
    ensures HistoryOk(h, hist')
  {
    forall a | 0 <= a < |hist'| && hist'[a].Some?
      ensures IsState(h, hist'[a].value) && Proper(h, hist'[a].value, a)
    {
      if Proper(h, left, a) && h.states[a].kind == Shallow {
        var k := Toward(h, left, a);
        assert IsChild(h, k, Parent(h, k));
      }
    }
  }
}
