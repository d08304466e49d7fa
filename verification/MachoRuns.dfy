/**
 What a Macho machine does between two rests, as functions: one transition with its init, the
 transitions that inits and histories request, and the events dispatched on the way. User code
 is a parameter: `user` answers what the k-th call of an init method, made in state s, requests;
 a script lists what successive event handlers request.
 */
module MachoRuns {
  import opened Options
  import opened MachoHierarchy

  /** Which initializer accompanies a transition. */
  datatype Init = DefaultInit | HistoryInit | ParameterInit

  datatype Target = Target(state: nat, init: Init)

  /** What one event handler does: request a transition, dispatch another event. */
  datatype Effect = Effect(target: Option<Target>, event: bool)

  type UserInit = (nat, nat) -> Option<Target>

  /** "Init may only transition to proper substates"; Root's own init does nothing. */
  ghost predicate UserOk(h: Hierarchy, user: UserInit)
    requires WellFormed(h)
  {
    forall k, s | IsState(h, s) && user(k, s).Some? ::
      IsState(h, user(k, s).value.state) && s != 0 && Proper(h, user(k, s).value.state, s)
  }

  /** A machine between transitions; inits counts the init calls made so far. */
  datatype Config = Config(
    current: nat,
    pending: Option<Target>,
    history: History,
    inits: nat,
    trace: seq<Action>)

  ghost predicate ConfigOk(h: Hierarchy, c: Config) {
    && WellFormed(h) && IsState(h, c.current) && HistoryOk(h, c.history)
    && (c.pending.Some? ==> IsState(h, c.pending.value.state))
  }

  /** The init of the state just entered. */
  ghost function AfterInit(user: UserInit, c: Config, init: Init): (r: Config)
    requires c.current < |c.history|
  {
    var recorded := c.history[c.current];
    var resumed := if init == HistoryInit && recorded.Some?
                   then c.(pending := Some(Target(recorded.value, DefaultInit)))
                   else c.(pending := user(c.inits, c.current), inits := c.inits + 1);
    if init == ParameterInit then resumed else resumed.(history := c.history[c.current := None])
  }

  /** One pending transition. */
  ghost function NextConfig(h: Hierarchy, user: UserInit, c: Config): (r: Config)
    requires ConfigOk(h, c) && c.pending.Some?
  {
    var t := c.pending.value;
    var there := Config(t.state, None, SavedHistory(h, c.history, c.current), c.inits,
                        c.trace + TransitionActions(h, c.current, t.state));
    AfterInit(user, there, t.init)
  }

  lemma NextOk(h: Hierarchy, user: UserInit, c: Config)
    requires ConfigOk(h, c) && c.pending.Some? && UserOk(h, user)
    ensures var r := NextConfig(h, user, c);
            && ConfigOk(h, r) && r.current == c.pending.value.state
            && (r.pending.Some? ==> Proper(h, r.pending.value.state, r.current) &&
                                    Depth(h, r.current) < Depth(h, r.pending.value.state) <= h.height)
  {
    SavedIs(h, c.history, SavedHistory(h, c.history, c.current), c.current);
    SavedKeepsOk(h, c.history, SavedHistory(h, c.history, c.current), c.current);
    var r := NextConfig(h, user, c);
    if r.pending.Some? { ChildDepth(h, r.pending.value.state, r.current); }
  }

  /** All transitions until none is pending: each goes strictly deeper than the one before. */
  ghost function RunOf(h: Hierarchy, user: UserInit, c: Config): (r: Config)
    requires ConfigOk(h, c) && UserOk(h, user)
    ensures ConfigOk(h, r) && r.pending == None
    decreases if c.pending.None? then 0 else 1 + h.height - Depth(h, c.pending.value.state)
  {
    if c.pending.None? then c
    else
      NextOk(h, user, c);
      RunOf(h, user, NextConfig(h, user, c))
  }

  /** Events are handled as far as the script reaches. */
  ghost function RattleOf(h: Hierarchy, user: UserInit, c: Config, event: bool, script: seq<Effect>):
    (r: (Config, bool, seq<Effect>))
    requires ConfigOk(h, c) && UserOk(h, user) && ScriptOk(h, script)
    ensures ConfigOk(h, r.0) && r.0.pending == None && ScriptOk(h, r.2)
    decreases script
  {
    var d := RunOf(h, user, c);
    if !event || script == [] then (d, event, script)
    else
      assert script[0] in script;
      RattleOf(h, user, d.(pending := script[0].target), script[0].event, script[1..])
  }

  /** The pending transition is performed before any event. */
  lemma RattleRun(h: Hierarchy, user: UserInit, c: Config, event: bool, script: seq<Effect>)
    requires ConfigOk(h, c) && UserOk(h, user) && ScriptOk(h, script)
    ensures RattleOf(h, user, RunOf(h, user, c), event, script) == RattleOf(h, user, c, event, script)
    ensures script == [] || !event ==> RattleOf(h, user, c, event, script) == (RunOf(h, user, c), event, script)
  {}

  lemma RattleNext(h: Hierarchy, user: UserInit, c: Config, script: seq<Effect>)
    requires ConfigOk(h, c) && UserOk(h, user) && ScriptOk(h, script) && script != [] && c.pending == None
    ensures var e := script[0];
            && (e.target.Some? ==> IsState(h, e.target.value.state)) && ScriptOk(h, script[1..])
            && RattleOf(h, user, c, true, script) == RattleOf(h, user, c.(pending := e.target), e.event, script[1..])
  {
    assert script[0] in script;
  }

  ghost predicate ScriptOk(h: Hierarchy, script: seq<Effect>) {
    forall e :: e in script && e.target.Some? ==> IsState(h, e.target.value.state)
  }

  /** No event is left pending when the handlers of the script have run. */
  predicate Settles(event: bool, script: seq<Effect>) {
    event ==> script != [] && Settles(script[0].event, script[1..])
  }

  // ---- where a machine comes to rest ------------------------------------------------------------

  lemma RunNext(h: Hierarchy, user: UserInit, c: Config)
    requires ConfigOk(h, c) && UserOk(h, user) && c.pending.Some?
    ensures var d := NextConfig(h, user, c);
            && ConfigOk(h, d) && RunOf(h, user, c) == RunOf(h, user, d) && d.current == c.pending.value.state
            && d.trace == c.trace + TransitionActions(h, c.current, d.current) && c.inits <= d.inits
            && (d.pending.None? ==>
                  d.inits == c.inits + 1 && user(c.inits, d.current) == None && RunOf(h, user, c) == d)
            && (d.pending.Some? ==> Proper(h, d.pending.value.state, d.current) &&
                                    Depth(h, d.current) < Depth(h, d.pending.value.state) <= h.height)
  {
    NextOk(h, user, c);
  }

  /** A run from a pending transition starts with that transition, ends inside its target, and
      rests only where the init requests nothing. */
  lemma {:induction false} RunRests(h: Hierarchy, user: UserInit, c: Config)
    requires ConfigOk(h, c) && UserOk(h, user) && c.pending.Some?
    ensures var r, t := RunOf(h, user, c), c.pending.value;
            && IsChild(h, r.current, t.state)
            && c.trace + TransitionActions(h, c.current, t.state) <= r.trace
            && c.inits < r.inits && user(r.inits - 1, r.current) == None
    decreases 1 + h.height - Depth(h, c.pending.value.state)
  {
    var d := NextConfig(h, user, c);
    RunNext(h, user, c);
    if d.pending.Some? {
      RunRests(h, user, d);
      RestsInside(h, c.trace, d, RunOf(h, user, d), TransitionActions(h, c.current, d.current));
    }
  }

  lemma RestsInside(h: Hierarchy, trace: seq<Action>, d: Config, r: Config, actions: seq<Action>)
    requires ConfigOk(h, d) && ConfigOk(h, r) && d.pending.Some? && Proper(h, d.pending.value.state, d.current)
    requires IsChild(h, r.current, d.pending.value.state) && d.trace == trace + actions
    requires d.trace + TransitionActions(h, d.current, d.pending.value.state) <= r.trace
    ensures IsChild(h, r.current, d.current) && trace + actions <= r.trace
  {
    ChildTrans(h, r.current, d.pending.value.state, d.current);
  }

  /** If the init of the target requests nothing, the run ends there. */
  lemma RunStays(h: Hierarchy, user: UserInit, c: Config)
    requires ConfigOk(h, c) && UserOk(h, user) && c.pending.Some? && c.pending.value.init != HistoryInit
    requires user(c.inits, c.pending.value.state) == None
    ensures var r := RunOf(h, user, c);
            var saved := SavedHistory(h, c.history, c.current);
            && r.current == c.pending.value.state && r.inits == c.inits + 1
            && r.history == (if c.pending.value.init == ParameterInit then saved else saved[r.current := None])
            && r.trace == c.trace + TransitionActions(h, c.current, c.pending.value.state)
  {
    NextOk(h, user, c);
  }

  /** A history transition ends inside what the target has recorded. */
  lemma HistoryResumes(h: Hierarchy, user: UserInit, c: Config)
    requires ConfigOk(h, c) && UserOk(h, user) && c.pending.Some? && c.pending.value.init == HistoryInit
    requires SavedHistory(h, c.history, c.current)[c.pending.value.state].Some?
    ensures IsChild(h, RunOf(h, user, c).current, SavedHistory(h, c.history, c.current)[c.pending.value.state].value)
  {
    NextOk(h, user, c);
    RunRests(h, user, NextConfig(h, user, c));
  }

  /** The last transition that is requested from outside or by an event handler. */
  function LastTarget(first: Option<Target>, event: bool, script: seq<Effect>): (t: Option<Target>)
    decreases script
  {
    if !event || script == [] then first
    else LastTarget(if script[0].target.Some? then script[0].target else first, script[0].event, script[1..])
  }

  lemma {:induction false} LastTargetOr(first: Option<Target>, event: bool, script: seq<Effect>)
    ensures var t := LastTarget(None, event, script); LastTarget(first, event, script) == if t.Some? then t else first
    decreases script
  {
    if event && script != [] {
      LastTargetOr(first, script[0].event, script[1..]);
      LastTargetOr(script[0].target, script[0].event, script[1..]);
    }
  }

  /** The last request decides where the machine rests; without any it stays where it is. */
  lemma {:induction false} RattleRests(h: Hierarchy, user: UserInit, c: Config, event: bool, script: seq<Effect>)
    requires ConfigOk(h, c) && UserOk(h, user) && ScriptOk(h, script)
    ensures var r, t := RattleOf(h, user, c, event, script).0, LastTarget(c.pending, event, script);
            && (t.None? ==> r == c)
            && (t.Some? ==> IsChild(h, r.current, t.value.state))
            && c.trace <= r.trace
            && (c.pending.Some? ==> c.trace + TransitionActions(h, c.current, c.pending.value.state) <= r.trace)
    decreases script
  {
    if c.pending.Some? { RunRests(h, user, c); }
    if event && script != [] {
      var d := RunOf(h, user, c).(pending := script[0].target);
      assert script[0] in script;
      RattleRests(h, user, d, script[0].event, script[1..]);
      LastTargetOr(c.pending, script[0].event, script[1..]);
    }
  }

  lemma {:induction false} RattleSettles(h: Hierarchy, user: UserInit, c: Config, event: bool, script: seq<Effect>)
    requires ConfigOk(h, c) && UserOk(h, user) && ScriptOk(h, script)
    ensures var r := RattleOf(h, user, c, event, script);
            && (r.1 <==> !Settles(event, script)) && (r.1 ==> r.2 == []) && |r.2| <= |script|
    decreases script
  {
    if event && script != [] {
      assert script[0] in script;
      RattleSettles(h, user, RunOf(h, user, c).(pending := script[0].target), script[0].event, script[1..]);
    }
  }
}
