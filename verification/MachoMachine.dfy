/**
 The run-to-completion engine of Macho: exits, entries, boxes, history and the loop that
 performs pending transitions. The engine's own assertions are the contracts on user code.
 */
module MachoMachine {
  import opened Options
  import opened Sequences
  import opened MachoHierarchy
  import opened MachoRuns

  /** myBox: no box, the shared empty box, or a box of its own. */
  datatype Box = NoBox | EmptyBox | Live

  /** Boxes while exactly x and its superstates are entered. */
  ghost predicate BoxesAt(h: Hierarchy, box: seq<Box>, place: seq<bool>, x: nat)
    requires WellFormed(h) && IsState(h, x)
  {
    && |box| == |place| == |h.states|
    && forall s :: 0 < s < |h.states| ==> BoxAt(h, box[s], place[s], x, s)
  }

  ghost predicate BoxAt(h: Hierarchy, b: Box, place: bool, x: nat, s: nat)
    requires WellFormed(h) && IsState(h, x) && 0 < s < |h.states|
  {
    && (IsChild(h, x, s) ==> b == if h.states[s].hasBox then Live else EmptyBox)
    && (b == Live ==> h.states[s].hasBox && !place && (IsChild(h, x, s) || h.states[s].persistent))
    && (b == EmptyBox ==> !h.states[s].hasBox)
  }

  /** Leaving the innermost state frees its box, unless it is persistent or empty. */
  lemma BoxesLeave(h: Hierarchy, box: seq<Box>, place: seq<bool>, box': seq<Box>, place': seq<bool>, c: nat)
    requires WellFormed(h) && IsState(h, c) && c != 0 && BoxesAt(h, box, place, c)
    requires var freed := h.states[c].hasBox && !h.states[c].persistent;
             && box' == (if freed then box[c := NoBox] else box)
             && place' == (if freed then place[c := true] else place)
    ensures BoxesAt(h, box', place', Parent(h, c))
  {
    if IsChild(h, Parent(h, c), c) { ChildDepth(h, Parent(h, c), c); }
    forall s | 0 < s < |h.states| ensures BoxAt(h, box'[s], place'[s], Parent(h, c), s) {
      assert BoxAt(h, box[s], place[s], c, s);
    }
  }

  lemma BoxesEnter(h: Hierarchy, box: seq<Box>, place: seq<bool>, box': seq<Box>, place': seq<bool>, s: nat)
    requires WellFormed(h) && IsState(h, s) && s != 0 && BoxesAt(h, box, place, Parent(h, s))
    requires box' == if box[s] == NoBox then box[s := if h.states[s].hasBox then Live else EmptyBox] else box
    requires place' == if box[s] == NoBox && h.states[s].hasBox then place[s := false] else place
    ensures BoxesAt(h, box', place', s)
  {
    forall x | 0 < x < |h.states| ensures BoxAt(h, box'[x], place'[x], s, x) {
      assert BoxAt(h, box[x], place[x], Parent(h, s), x);
    }
  }

  /** _setHistorySuper resolves to a bubbling version iff a superstate has a history strategy. */
  predicate HistoryAbove(h: Hierarchy, a: nat)
    requires WellFormed(h) && IsState(h, a)
    decreases Depth(h, a)
  {
    a != 0 && (h.states[Parent(h, a)].kind != NoHistory || HistoryAbove(h, Parent(h, a)))
  }

  /** History after saving `left` in a and all superstates of a. */
  ghost predicate SavedFrom(h: Hierarchy, hist: History, hist': History, left: nat, a: nat)
    requires WellFormed(h) && IsState(h, left) && IsState(h, a)
  {
    |hist| == |hist'| == |h.states| &&
    forall x :: 0 <= x < |hist| ==>
      hist'[x] == if Proper(h, left, x) && IsChild(h, a, x) && h.states[x].kind == Shallow then Some(Toward(h, left, x))
                  else if Proper(h, left, x) && IsChild(h, a, x) && h.states[x].kind == Deep then Some(left)
                  else hist[x]
  }

  lemma {:induction false} NothingAbove(h: Hierarchy, a: nat, x: nat)
    requires WellFormed(h) && IsState(h, a) && !HistoryAbove(h, a) && IsState(h, x) && Proper(h, a, x)
    ensures h.states[x].kind == NoHistory
    decreases Depth(h, a)
  {
    if Parent(h, a) != x { NothingAbove(h, Parent(h, a), x); }
  }

  class Machine {
    const h: Hierarchy
    var current: Option<nat>
    var pending: Option<Target>
    var pendingEvent: bool
    var history: History
    var box: seq<Box>
    var place: seq<bool>
    var trace: seq<Action>
    var inits: nat

    /** Between transitions: the entered states are the current one and its superstates. */
    ghost predicate Stable()
      reads this
    {
      && WellFormed(h) && current.Some? && IsState(h, current.value)
      && Entered(h, trace) == Some(Chain(h, current.value))
      && BoxesAt(h, box, place, current.value) && HistoryOk(h, history)
      && (pending.Some? ==> IsState(h, pending.value.state))
    }

    /** Before start and after shutdown. */
    ghost predicate Idle()
      reads this
    {
      && WellFormed(h) && current == None && pending == None && !pendingEvent
      && Entered(h, trace) == Some([]) && BoxesAt(h, box, place, 0) && HistoryOk(h, history)
    }

    ghost function Configuration(): (c: Config)
      requires current.Some?
      reads this
    {
      Config(current.value, pending, history, inits, trace)
    }

    constructor (h: Hierarchy)
      requires WellFormed(h)
      ensures this.h == h && Idle() && trace == [] && inits == 0 && history == seq(|h.states|, _ => None)
    {
      this.h := h;
      current, pending, pendingEvent := None, None, false;
      history := seq(|h.states|, _ => None);
      box := seq(|h.states|, _ => NoBox);
      place := seq(|h.states|, _ => false);
      trace, inits := [], 0;
    }

    /** _StateInstance::exit. */
    method ExitFrom(c: nat, next: nat)
      requires WellFormed(h) && IsState(h, c) && IsState(h, next) && BoxesAt(h, box, place, c)
      modifies this`trace, this`box, this`place
      ensures trace == old(trace) + ExitActions(h, c, next)
      ensures BoxesAt(h, box, place, ExitStop(h, c, next))
      decreases Depth(h, c)
    {
      if c == 0 {
        return;
      }
      if c == next || !IsChild(h, next, c) {
        trace := trace + [Exit(c)];
        BoxesLeave(h, box, place,
                   if h.states[c].hasBox && !h.states[c].persistent then box[c := NoBox] else box,
                   if h.states[c].hasBox && !h.states[c].persistent then place[c := true] else place, c);
        if box[c] != EmptyBox && !h.states[c].persistent {
          DeleteBox(c);
        }
        ExitFrom(Parent(h, c), next);
        Regroup(old(trace), [Exit(c)], ExitActions(h, Parent(h, c), next));
      }
    }

    /** deleteBox, with its two assertions as preconditions. */
    method DeleteBox(c: nat)
      requires c < |box| == |place| && box[c] == Live && !place[c]
      modifies this`box, this`place
      ensures box == old(box)[c := NoBox] && place == old(place)[c := true]
    {
      place := place[c := true];
      box := box[c := NoBox];
    }

    /** createBox: only if there is none yet. */
    method CreateBox(s: nat)
      requires IsState(h, s) && s < |box| == |place|
      modifies this`box, this`place
      ensures box ==
              if old(box[s]) == NoBox then old(box)[s := if h.states[s].hasBox then Live else EmptyBox] else old(box)
      ensures place == if old(box[s]) == NoBox && h.states[s].hasBox then old(place)[s := false] else old(place)
    {
      if box[s] == NoBox {
        if h.states[s].hasBox {
          place := place[s := false];
          box := box[s := Live];
        } else {
          box := box[s := EmptyBox];
        }
      }
    }

    /** _StateInstance::entry. */
    method EnterTo(s: nat, prev: nat, first: bool)
      requires WellFormed(h) && IsState(h, s) && IsState(h, prev)
      requires BoxesAt(h, box, place, EntryStop(h, s, prev, first))
      modifies this`trace, this`box, this`place
      ensures trace == old(trace) + EntryActions(h, s, prev, first)
      ensures BoxesAt(h, box, place, s)
      decreases Depth(h, s)
    {
      if s == 0 {
        return;
      }
      if first || !IsChild(h, prev, s) {
        EnterTo(Parent(h, s), prev, false);
        ghost var b, p := box, place;
        CreateBox(s);
        BoxesEnter(h, b, p, box, place, s);
        trace := trace + [Entry(s)];
        Regroup(old(trace), EntryActions(h, Parent(h, s), prev, false), [Entry(s)]);
      }
    }

    /** saveHistory of a, for the state `deep` that is being left through substate `shallow`. */
    method SaveHistory(a: nat, shallow: nat, deep: nat)
      requires WellFormed(h) && IsState(h, a) && IsState(h, deep) && |history| == |h.states|
      requires Proper(h, deep, a) && shallow == Toward(h, deep, a)
      modifies this`history
      ensures SavedFrom(h, old(history), history, deep, a)
      decreases Depth(h, a)
    {
      if a == 0 {
        return;
      }
      match h.states[a].kind {
        case NoHistory =>
        case Shallow => history := history[a := Some(shallow)];
        case Deep => history := history[a := Some(deep)];
      }
      ghost var mid := history;
      if HistoryAbove(h, a) {
        ChildTrans(h, deep, a, Parent(h, a));
        ChildDepth(h, deep, a);
        TowardParent(h, deep, a);
        SaveHistory(Parent(h, a), a, deep);
      }
      SavedUp(h, old(history), mid, history, deep, a);
    }

    /** Line 359: every superstate with a history strategy records the state being left. */
    method SaveHistorySuper(c: nat)
      requires WellFormed(h) && IsState(h, c) && |history| == |h.states|
      modifies this`history
      ensures Saved(h, old(history), history, c)
    {
      if c != 0 {
        ChildDepth(h, c, Parent(h, c));
        SaveHistory(Parent(h, c), c, c);
      }
    }

    /** init->execute: a history transition, or the user's init, which may request a substate. */
    method RunInit(init: Init, user: UserInit)
      requires Stable() && pending == None && UserOk(h, user)
      modifies this`pending, this`history, this`inits
      ensures Stable()
      ensures pending.Some? ==> Proper(h, pending.value.state, current.value)
      ensures init == HistoryInit && old(history)[current.value].Some? ==>
                pending == Some(Target(old(history)[current.value].value, DefaultInit)) && inits == old(inits)
      ensures !(init == HistoryInit && old(history)[current.value].Some?) ==>
                pending == user(old(inits), current.value) && inits == old(inits) + 1
      ensures history == if init == ParameterInit then old(history) else old(history)[current.value := None]
    {
      var c := current.value;
      if init == HistoryInit && history[c].Some? {
        pending := Some(Target(history[c].value, DefaultInit));
      } else {
        pending := user(inits, c);
        inits := inits + 1;
      }
      if init != ParameterInit {
        history := history[c := None];
      }
    }

    /** One pending transition: lines 346-386. */
    method Transition(user: UserInit) returns (ghost saved: History)
      requires Stable() && pending.Some? && UserOk(h, user)
      modifies this`current, this`pending, this`history, this`box, this`place, this`trace, this`inits
      ensures Stable() && current == Some(old(pending.value.state))
      ensures trace == old(trace) + TransitionActions(h, old(current.value), old(pending.value.state))
      ensures Saved(h, old(history), saved, old(current.value))
      ensures history == if old(pending.value.init) == ParameterInit then saved else saved[current.value := None]
      ensures pending.Some? ==> Proper(h, pending.value.state, current.value)
      ensures var resumed := if old(pending.value.init) == HistoryInit then saved[current.value] else None;
              && pending == (if resumed.Some? then Some(Target(resumed.value, DefaultInit))
                             else user(old(inits), current.value))
              && inits == if resumed.Some? then old(inits) else old(inits) + 1
      ensures Configuration() == NextConfig(h, user, old(Configuration()))
    {
      var c, t := current.value, pending.value;
      TransitionNests(h, trace, c, t.state);
      ghost var hist := history;
      ChangeState(c, t.state);
      saved := history;
      SavedIs(h, hist, saved, c);
      SavedKeepsOk(h, hist, saved, c);
      pending := None;
      RunInit(t.init, user);
    }

    /** Lines 355-371: exits, history, new current state, entries. */
    method ChangeState(c: nat, next: nat)
      requires WellFormed(h) && IsState(h, c) && IsState(h, next) && |history| == |h.states|
      requires BoxesAt(h, box, place, c)
      modifies this`current, this`history, this`box, this`place, this`trace
      ensures current == Some(next) && trace == old(trace) + TransitionActions(h, c, next)
      ensures Saved(h, old(history), history, c) && BoxesAt(h, box, place, next)
    {
      MeetingPoint(h, c, next);
      ExitFrom(c, next);
      SaveHistorySuper(c);
      current := Some(next);
      EnterTo(next, c, true);
      Regroup(old(trace), ExitActions(h, c, next), EntryActions(h, next, c, true));
    }

    /** The inner loop: init and history transitions go strictly down, so they end within the tree's height. */
    method RunPending(user: UserInit) returns (count: nat)
      requires Stable() && UserOk(h, user)
      modifies this`current, this`pending, this`history, this`box, this`place, this`trace, this`inits
      ensures Stable() && pending == None && Configuration() == RunOf(h, user, old(Configuration()))
      ensures old(pending) == None ==> count == 0
      ensures old(pending).Some? ==>
                && IsChild(h, current.value, old(pending.value.state))
                && 1 <= count && count + Depth(h, old(pending.value.state)) <= 1 + h.height
    {
      count := 0;
      ghost var p, c0 := pending, Configuration();
      while pending.Some?
        invariant Stable() && RunOf(h, user, Configuration()) == RunOf(h, user, c0)
        invariant count == 0 ==> pending == p
        invariant count > 0 ==> p.Some? && IsChild(h, current.value, p.value.state)
        invariant count > 0 ==>
                    count + Depth(h, p.value.state) <= 1 + Depth(h, current.value) <= 1 + h.height
        invariant count > 0 && pending.Some? ==> Proper(h, pending.value.state, current.value)
        decreases if pending.None? then 0 else 1 + h.height - Depth(h, pending.value.state)
      {
        ghost var c, t := current.value, pending.value.state;
        if count > 0 {
          ChildDepth(h, t, c);
          ChildTrans(h, t, c, p.value.state);
        }
        RunNext(h, user, Configuration());
        ghost var saved := Transition(user);
        if pending.Some? { ChildDepth(h, pending.value.state, t); }
        count := count + 1;
      }
    }

    /** rattleOn, as far as the script of event handlers reaches: an event is left pending exactly
        when the script does not settle. */
    method Rattle(user: UserInit, script: seq<Effect>) returns (rest: seq<Effect>)
      requires Stable() && UserOk(h, user) && ScriptOk(h, script)
      modifies this
      ensures Stable() && pending == None && ScriptOk(h, rest) && (pendingEvent ==> rest == [])
      ensures (Configuration(), pendingEvent, rest) ==
              RattleOf(h, user, old(Configuration()), old(pendingEvent), script)
      ensures pendingEvent <==> !Settles(old(pendingEvent), script)
    {
      rest := script;
      ghost var goal := RattleOf(h, user, Configuration(), pendingEvent, script);
      RattleSettles(h, user, Configuration(), pendingEvent, script);
      RattleRun(h, user, Configuration(), pendingEvent, script);
      var count := RunPending(user);
      while pendingEvent && rest != []
        invariant Stable() && pending == None && ScriptOk(h, rest)
        invariant RattleOf(h, user, Configuration(), pendingEvent, rest) == goal
        decreases rest
      {
        RattleNext(h, user, Configuration(), rest);
        pendingEvent := false;
        pending := rest[0].target;
        pendingEvent := rest[0].event;
        rest := rest[1..];
        RattleRun(h, user, Configuration(), pendingEvent, rest);
        count := RunPending(user);
      }
    }

    /** start: from Root to the start state. What was recorded before a shutdown is still there. */
    method Start(target: nat, user: UserInit, script: seq<Effect>) returns (rest: seq<Effect>)
      requires Idle() && IsState(h, target) && UserOk(h, user) && ScriptOk(h, script)
      modifies this
      ensures Stable() && pending == None && !pendingEvent && rest == script
      ensures Configuration() ==
              RunOf(h, user, Config(0, Some(Target(target, DefaultInit)), old(history), old(inits), old(trace)))
      ensures IsChild(h, current.value, target) && old(trace) + TransitionActions(h, 0, target) <= trace
      ensures user(old(inits), target) == None ==>
                current == Some(target) && trace == old(trace) + TransitionActions(h, 0, target)
    {
      current := Some(0);
      pending := Some(Target(target, DefaultInit));
      ghost var c := Configuration();
      RunRests(h, user, c);
      if user(inits, target) == None { RunStays(h, user, c); }
      rest := Rattle(user, script);
    }

    /** An event: the handler runs in the current state, then everything pending is performed. */
    method Dispatch(e: Effect, user: UserInit, script: seq<Effect>) returns (rest: seq<Effect>)
      requires Stable() && pending == None && !pendingEvent && UserOk(h, user) && ScriptOk(h, [e] + script)
      modifies this
      ensures Stable() && pending == None && (pendingEvent ==> rest == [])
      ensures (Configuration(), pendingEvent, rest) ==
              RattleOf(h, user, old(Configuration()).(pending := e.target), e.event, script)
      ensures pendingEvent <==> !Settles(e.event, script)
      ensures var t := LastTarget(e.target, e.event, script);
              && (t.None? ==> current == old(current) && trace == old(trace) && history == old(history))
              && (t.Some? ==> IsChild(h, current.value, t.value.state))
      ensures old(trace) <= trace
      ensures e.target.Some? ==>
                old(trace) + TransitionActions(h, old(current.value), e.target.value.state) <= trace
    {
      assert e in [e] + script;
      assert forall x :: x in script ==> x in [e] + script;
      pending := e.target;
      pendingEvent := e.event;
      RattleRests(h, user, Configuration(), pendingEvent, script);
      rest := Rattle(user, script);
    }

    /** shutdown: every entered state is exited, every box that is not persistent is freed. */
    method Shutdown(user: UserInit)
      requires Stable() && pending == None && !pendingEvent && UserOk(h, user)
      modifies this
      ensures Idle() && trace == old(trace) + ExitActions(h, old(current.value), 0)
      ensures history == SavedHistory(h, old(history), old(current.value))[0 := None]
      ensures forall s :: 0 < s < |h.states| && !h.states[s].persistent ==> box[s] != Live
    {
      assert TransitionActions(h, current.value, 0) == ExitActions(h, current.value, 0);
      pending := Some(Target(0, DefaultInit));
      RunStays(h, user, Configuration());
      var rest := Rattle(user, []);
      forall s | 0 < s < |h.states| && !h.states[s].persistent ensures box[s] != Live {
        assert BoxAt(h, box[s], place[s], 0, s);
      }
      current := None;
    }
  }

  lemma {:induction false} TowardParent(h: Hierarchy, s: nat, a: nat)
    requires WellFormed(h) && IsState(h, s) && IsState(h, a) && a != 0 && Proper(h, s, a)
    ensures Proper(h, s, Parent(h, a)) && Toward(h, s, Parent(h, a)) == a
    decreases Depth(h, s)
  {
    if Parent(h, s) == a {
      ChildDepth(h, Parent(h, s), Parent(h, a));
    } else {
      TowardParent(h, Parent(h, s), a);
      ChildDepth(h, Parent(h, s), Parent(h, a));
    }
  }

  lemma SavedUp(h: Hierarchy, hist: History, mid: History, hist': History, left: nat, a: nat)
    requires WellFormed(h) && IsState(h, left) && IsState(h, a) && a != 0 && Proper(h, left, a)
    requires |hist| == |h.states|
    requires mid == match h.states[a].kind
                    case NoHistory => hist
                    case Shallow => hist[a := Some(Toward(h, left, a))]
                    case Deep => hist[a := Some(left)]
    requires if HistoryAbove(h, a) then SavedFrom(h, mid, hist', left, Parent(h, a)) else hist' == mid
    ensures SavedFrom(h, hist, hist', left, a)
  {
    if IsChild(h, Parent(h, a), a) { ChildDepth(h, Parent(h, a), a); }
    forall x | 0 <= x < |hist|
      ensures hist'[x] ==
              if Proper(h, left, x) && IsChild(h, a, x) && h.states[x].kind == Shallow then Some(Toward(h, left, x))
              else if Proper(h, left, x) && IsChild(h, a, x) && h.states[x].kind == Deep then Some(left)
              else hist[x]
    {
      if x != a && IsChild(h, a, x) && !HistoryAbove(h, a) {
        NothingAbove(h, a, x);
      }
    }
  }

  // ---- from start to shutdown -------------------------------------------------------------------

  /** An event from outside: what its handler does, and what the handlers of the events do that
      are dispatched on the way. */
  datatype Step = Step(handler: Effect, more: seq<Effect>)

  ghost predicate StepOk(h: Hierarchy, step: Step) {
    Settles(step.handler.event, step.more) && ScriptOk(h, [step.handler] + step.more)
  }

  function RequestOf(step: Step): (t: Option<Target>) {
    LastTarget(step.handler.target, step.handler.event, step.more)
  }

  /** Each event leads into the last target that its handlers request, or nowhere. */
  ghost predicate Obeyed(h: Hierarchy, steps: seq<Step>, marks: seq<nat>, states: seq<nat>)
    requires WellFormed(h)
  {
    && |states| == |marks| == |steps| + 1 && (forall k :: 0 <= k < |states| ==> IsState(h, states[k]))
    && forall k :: 0 <= k < |steps| ==> ObeyedAt(h, steps[k], marks, states, k)
  }

  ghost predicate ObeyedAt(h: Hierarchy, step: Step, marks: seq<nat>, states: seq<nat>, k: nat)
    requires WellFormed(h) && k + 1 < |states| == |marks| && IsState(h, states[k + 1])
  {
    match RequestOf(step)
    case None => states[k + 1] == states[k] && marks[k + 1] == marks[k]
    case Some(t) => IsChild(h, states[k + 1], t.state)
  }

  lemma ObeyedPush(h: Hierarchy, steps: seq<Step>, step: Step, marks: seq<nat>, states: seq<nat>, mark: nat, s: nat)
    requires WellFormed(h) && Obeyed(h, steps, marks, states) && IsState(h, s)
    requires match RequestOf(step)
             case None => s == states[|steps|] && mark == marks[|steps|]
             case Some(t) => IsChild(h, s, t.state)
    ensures Obeyed(h, steps + [step], marks + [mark], states + [s])
  {
    forall k | 0 <= k < |steps| + 1 ensures ObeyedAt(h, (steps + [step])[k], marks + [mark], states + [s], k) {
      if k < |steps| { assert ObeyedAt(h, steps[k], marks, states, k); }
    }
  }

  /** After each event exactly the current state and its superstates are entered. */
  ghost predicate NestedAt(h: Hierarchy, trace: seq<Action>, marks: seq<nat>, states: seq<nat>)
    requires WellFormed(h)
  {
    && |marks| == |states|
    && forall k :: 0 <= k < |marks| ==> NestedMark(h, trace, marks[k], states[k])
  }

  ghost predicate NestedMark(h: Hierarchy, trace: seq<Action>, mark: nat, s: nat)
    requires WellFormed(h)
  {
    IsState(h, s) && mark <= |trace| && Entered(h, trace[..mark]) == Some(Chain(h, s))
  }

  lemma NestedLonger(h: Hierarchy, trace: seq<Action>, longer: seq<Action>, marks: seq<nat>, states: seq<nat>)
    requires WellFormed(h) && NestedAt(h, trace, marks, states) && trace <= longer
    ensures NestedAt(h, longer, marks, states)
  {
    forall k | 0 <= k < |marks| ensures NestedMark(h, longer, marks[k], states[k]) {
      assert NestedMark(h, trace, marks[k], states[k]);
      assert longer[..marks[k]] == trace[..marks[k]];
    }
  }

  lemma NestedPush(h: Hierarchy, before: seq<Action>, trace: seq<Action>, marks: seq<nat>, states: seq<nat>, s: nat)
    requires WellFormed(h) && NestedAt(h, before, marks, states) && before <= trace && IsState(h, s)
    requires Entered(h, trace) == Some(Chain(h, s))
    ensures NestedAt(h, trace, marks + [|trace|], states + [s])
  {
    NestedLonger(h, before, trace, marks, states);
    assert trace[..|trace|] == trace;
  }

  lemma LifeStart(h: Hierarchy, trace: seq<Action>, s: nat)
    requires WellFormed(h) && IsState(h, s) && Entered(h, trace) == Some(Chain(h, s))
    ensures NestedAt(h, trace, [|trace|], [s]) && Obeyed(h, [], [|trace|], [s])
  {
    assert trace[..|trace|] == trace;
  }

  lemma LifePush(
    h: Hierarchy, steps: seq<Step>, k: nat, before: seq<Action>, trace: seq<Action>, marks: seq<nat>,
    states: seq<nat>, s: nat)
    requires WellFormed(h) && k < |steps| && NestedAt(h, before, marks, states) && Obeyed(h, steps[..k], marks, states)
    requires before <= trace && IsState(h, s) && Entered(h, trace) == Some(Chain(h, s)) && marks[k] == |before|
    requires match RequestOf(steps[k])
             case None => s == states[k] && trace == before
             case Some(t) => IsChild(h, s, t.state)
    ensures NestedAt(h, trace, marks + [|trace|], states + [s])
    ensures Obeyed(h, steps[..k + 1], marks + [|trace|], states + [s])
  {
    NestedPush(h, before, trace, marks, states, s);
    ObeyedPush(h, steps[..k], steps[k], marks, states, |trace|, s);
    assert steps[..k] + [steps[k]] == steps[..k + 1];
  }

  method Begin(h: Hierarchy, target: nat, user: UserInit) returns (m: Machine)
    requires WellFormed(h) && IsState(h, target) && UserOk(h, user)
    ensures fresh(m) && m.h == h && m.Stable() && m.pending == None && !m.pendingEvent
    ensures IsChild(h, m.current.value, target) && TransitionActions(h, 0, target) <= m.trace
  {
    m := new Machine(h);
    var rest := m.Start(target, user, []);
    assert [] + TransitionActions(h, 0, target) == TransitionActions(h, 0, target);
  }

  method Advance(m: Machine, step: Step, user: UserInit)
    requires m.Stable() && m.pending == None && !m.pendingEvent && UserOk(m.h, user) && StepOk(m.h, step)
    modifies m
    ensures m.Stable() && m.pending == None && !m.pendingEvent && old(m.trace) <= m.trace
    ensures match RequestOf(step)
            case None => m.current == old(m.current) && m.trace == old(m.trace)
            case Some(t) => IsChild(m.h, m.current.value, t.state)
  {
    var rest := m.Dispatch(step.handler, user, step.more);
  }

  /** A whole life: start, any sequence of events, shutdown. */
  method StartToShutdown(h: Hierarchy, target: nat, user: UserInit, steps: seq<Step>)
    returns (trace: seq<Action>, box: seq<Box>, marks: seq<nat>, states: seq<nat>)
    requires WellFormed(h) && IsState(h, target) && UserOk(h, user)
    requires forall k :: 0 <= k < |steps| ==> StepOk(h, steps[k])
    ensures NestedAt(h, trace, marks, states) && Obeyed(h, steps, marks, states)
    ensures IsChild(h, states[0], target) && TransitionActions(h, 0, target) <= trace
    ensures Entered(h, trace) == Some([]) && trace == trace[..marks[|steps|]] + ExitActions(h, states[|steps|], 0)
    ensures |box| == |h.states| && forall s :: 0 < s < |h.states| && !h.states[s].persistent ==> box[s] != Live
  {
    var m := Begin(h, target, user);
    LifeStart(h, m.trace, m.current.value);
    marks, states := [|m.trace|], [m.current.value];
    var k := 0;
    assert steps[..0] == [];
    while k < |steps|
      invariant 0 <= k <= |steps| && fresh(m) && m.h == h && m.Stable() && m.pending == None && !m.pendingEvent
      invariant NestedAt(h, m.trace, marks, states) && Obeyed(h, steps[..k], marks, states)
      invariant states[k] == m.current.value && marks[k] == |m.trace|
      invariant IsChild(h, states[0], target) && TransitionActions(h, 0, target) <= m.trace
    {
      assert StepOk(h, steps[k]);
      ghost var before := m.trace;
      Advance(m, steps[k], user);
      LifePush(h, steps, k, before, m.trace, marks, states, m.current.value);
      marks, states := marks + [|m.trace|], states + [m.current.value];
      k := k + 1;
    }
    assert steps[..k] == steps;
    ghost var before := m.trace;
    m.Shutdown(user);
    NestedLonger(h, before, m.trace, marks, states);
    trace, box := m.trace, m.box;
  }
}
