/**
 Orchestration commands, as the events that their handler causes in the network. When a command
 keeps every packet with a route deliverable, and what happens to packets when it does not.
 */
module ConvoyCommands {
  import opened Options
  import opened ConvoyTypes
  import opened ConvoyRouting
  import opened ConvoyEvents

  /** A station's role and the node ids of its devices, which they keep while detached. */
  datatype Station = Station(role: Role, macPr: int, macGw: int)

  /** changeClusterMembership: a manager's primary device is replaced, any other one joins. mac is
      the node id that a new primary device gets. */
  function ChangeEvents(i: nat, st: Station, msg: Command, mac: int): (events: seq<Event>) {
    match msg.role
    case Undefined => []
    case Manager => [Found(i, mac, msg.convoy)]
    case Member => [PrimaryJoin(i, st, msg, mac)]
    case Gateway => [JoinGateway(i, st.macGw, msg.clusterGw, msg.convoy), PrimaryJoin(i, st, msg, mac)]
  }

  function PrimaryJoin(i: nat, st: Station, msg: Command, mac: int): (e: Event) {
    Join(i, if st.role == Manager then mac else st.macPr, msg.cluster, msg.convoy)
  }

  /** A new convoy is founded on the way when the command's one is beyond all that exist. */
  function NewConvoyEvents(i: nat, st: Station, msg: Command, maxIdConvoy: int, macs: Ids): (events: seq<Event>) {
    if msg.convoy > maxIdConvoy then
      [Found(i, macs.0, maxIdConvoy + 1)] + ChangeEvents(i, Station(Manager, macs.0, st.macGw), msg, macs.1)
    else ChangeEvents(i, st, msg, macs.1)
  }

  /** handleOrchestrationMessage at a station with devices pr and gw. */
  function CommandEvents(i: nat, pr: Device, gw: Device, st: Station, msg: Command, maxIdConvoy: int, macs: Ids):
    (events: seq<Event>)
  {
    if msg.convoy != pr.convoy then [Detach(i)] + NewConvoyEvents(i, st, msg, maxIdConvoy, macs)
    else if msg.role != st.role then [Detach(i)] + ChangeEvents(i, st, msg, macs.1)
    else if msg.cluster != pr.manager || msg.clusterGw != gw.manager then ChangeEvents(i, st, msg, macs.1)
    else []
  }

  /** Exactly these commands are ignored; a station in role Undefined ignores what keeps its convoy. */
  lemma IgnoredWhen(i: nat, pr: Device, gw: Device, st: Station, msg: Command, maxIdConvoy: int, macs: Ids)
    ensures CommandEvents(i, pr, gw, st, msg, maxIdConvoy, macs) == [] <==>
              && msg.convoy == pr.convoy && msg.role == st.role
              && (msg.role == Undefined || (msg.cluster == pr.manager && msg.clusterGw == gw.manager))
  {}

  /** Exactly these commands detach both devices first, and exactly these found a convoy on the way. */
  lemma DetachesWhen(i: nat, pr: Device, gw: Device, st: Station, msg: Command, maxIdConvoy: int, macs: Ids)
    ensures Detach(i) in CommandEvents(i, pr, gw, st, msg, maxIdConvoy, macs) <==>
              msg.convoy != pr.convoy || msg.role != st.role
    ensures Found(i, macs.0, maxIdConvoy + 1) in CommandEvents(i, pr, gw, st, msg, maxIdConvoy, macs) <==>
              || (msg.convoy != pr.convoy && msg.convoy > maxIdConvoy)
              || (macs.0 == macs.1 && msg.convoy == maxIdConvoy + 1 && msg.role == Manager &&
                  CommandEvents(i, pr, gw, st, msg, maxIdConvoy, macs) != [])
  {}

  // ---- events of one station --------------------------------------------------------------------

  /** All events are of station i and use addresses that no other station has. */
  ghost predicate Local(net: Net, i: nat, events: seq<Event>) {
    i < |net.nodes| && forall k :: 0 <= k < |events| ==> events[k].node == i && OwnAddress(net, events[k])
  }

  /** The other stations stay as they are, and so do the next hops of their devices. */
  ghost predicate OnlyAt(net: Net, r: Net, i: nat) {
    && |r.nodes| == |net.nodes|
    && (forall j :: 0 <= j < |net.nodes| && j != i ==> r.nodes[j] == net.nodes[j])
    && (forall j, a :: 0 <= j < |net.nodes| && j != i && a != 0 && Owns(net.nodes[j], a) ==>
          NextHop(r, a) == NextHop(net, a))
  }

  lemma {:induction false} LocalRun(net: Net, i: nat, events: seq<Event>)
    requires Sane(net) && Local(net, i, events)
    ensures InNet(net, events) && Sane(After(net, events)) && OnlyAt(net, After(net, events), i)
    decreases |events|
  {
    if events != [] {
      var e, rest := events[0], events[1..];
      var mid := Apply(net, e);
      EventKeepsSane(net, e);
      assert OnlyAt(net, mid, i);
      forall k | 0 <= k < |rest| ensures rest[k].node == i && OwnAddress(mid, rest[k]) {
        assert rest[k] == events[k + 1];
      }
      LocalRun(mid, i, rest);
    }
  }

  lemma AfterCons(net: Net, e: Event, rest: seq<Event>)
    requires e.node < |net.nodes| && InNet(Apply(net, e), rest)
    ensures InNet(net, [e] + rest) && After(net, [e] + rest) == After(Apply(net, e), rest)
  {
    assert ([e] + rest)[1..] == rest;
  }

  // ---- what a command leaves behind -------------------------------------------------------------

  ghost predicate Unused(net: Net, mac: int) {
    mac != 0 && forall j :: 0 <= j < |net.nodes| ==> !Owns(net.nodes[j], mac)
  }

  /** Station i of the network, with two new node ids at hand. */
  ghost predicate Fits(net: Net, i: nat, pr: Device, gw: Device, st: Station, macs: Ids) {
    && i < |net.nodes| && net.nodes[i] == Node(Some(pr), Some(gw))
    && (st.role == Manager <==> pr.kind == MasterDevice)
    && (pr.address == 0 || pr.address == st.macPr) && (gw.address == 0 || gw.address == st.macGw)
    && Free(net, i, st.macPr) && Free(net, i, st.macGw) && st.macPr != st.macGw
    && Unused(net, macs.0) && Unused(net, macs.1)
    && macs.0 != macs.1 && macs.0 != st.macPr && macs.0 != st.macGw && macs.1 != st.macPr && macs.1 != st.macGw
  }

  lemma CommandIsLocal(net: Net, i: nat, pr: Device, gw: Device, st: Station, msg: Command, maxIdConvoy: int, macs: Ids)
    requires Fits(net, i, pr, gw, st, macs)
    ensures Local(net, i, CommandEvents(i, pr, gw, st, msg, maxIdConvoy, macs))
  {}

  lemma CommandOnlyAt(net: Net, i: nat, pr: Device, gw: Device, st: Station, msg: Command, maxIdConvoy: int, macs: Ids)
    requires Sane(net) && Fits(net, i, pr, gw, st, macs)
    ensures var events := CommandEvents(i, pr, gw, st, msg, maxIdConvoy, macs);
            InNet(net, events) && Sane(After(net, events)) && OnlyAt(net, After(net, events), i)
  {
    CommandIsLocal(net, i, pr, gw, st, msg, maxIdConvoy, macs);
    LocalRun(net, i, CommandEvents(i, pr, gw, st, msg, maxIdConvoy, macs));
  }

  /** A command keeps the devices attached, replaces them or detaches them. */
  predicate Detaches(pr: Device, st: Station, msg: Command) {
    msg.convoy != pr.convoy || msg.role != st.role
  }

  /** The primary device and the gateway device after a command that is not ignored. */
  function NewPrimary(pr: Device, st: Station, msg: Command, maxIdConvoy: int, macs: Ids): (d: Device) {
    var founds := msg.convoy != pr.convoy && msg.convoy > maxIdConvoy;
    match msg.role
    case Manager => Device(MasterDevice, macs.1, macs.1, msg.convoy)
    case Undefined => if founds then Device(MasterDevice, macs.0, macs.0, maxIdConvoy + 1) else Device(pr.kind, 0, 0, 0)
    case _ => Device(MemberDevice, if founds || st.role == Manager then macs.1 else st.macPr, msg.cluster, msg.convoy)
  }

  function NewGateway(gw: Device, detached: bool, st: Station, msg: Command): (d: Device) {
    if msg.role == Gateway then Device(GatewayDevice, st.macGw, msg.clusterGw, msg.convoy)
    else if detached then Device(gw.kind, 0, 0, 0)
    else gw
  }

  lemma ChangeResult(net: Net, i: nat, node: Node, st: Station, msg: Command, mac: int)
    requires i < |net.nodes| && net.nodes[i] == node && mac != st.macGw && st.macPr != st.macGw
    ensures InNet(net, ChangeEvents(i, st, msg, mac))
    ensures var r := After(net, ChangeEvents(i, st, msg, mac));
            && r.nodes[i].gw == (
                 if msg.role != Gateway then node.gw
                 else Some(Device(GatewayDevice, st.macGw, msg.clusterGw, msg.convoy)))
            && NextHop(r, st.macGw) == (if msg.role == Gateway then msg.clusterGw else NextHop(net, st.macGw))
            && match msg.role
               case Undefined => r == net
               case Manager =>
                 r.nodes[i].pr == Some(Device(MasterDevice, mac, mac, msg.convoy)) && NextHop(r, mac) == mac
               case _ =>
                 var a := if st.role == Manager then mac else st.macPr;
                 r.nodes[i].pr == Some(Device(MemberDevice, a, msg.cluster, msg.convoy)) && NextHop(r, a) == msg.cluster
  {
    match msg.role
    case Undefined =>
    case Manager => AfterCons(net, Found(i, mac, msg.convoy), []);
    case Member => AfterCons(net, PrimaryJoin(i, st, msg, mac), []);
    case Gateway => BothJoin(net, i, JoinGateway(i, st.macGw, msg.clusterGw, msg.convoy), PrimaryJoin(i, st, msg, mac));
  }

  lemma BothJoin(net: Net, i: nat, e: Event, e': Event)
    requires i < |net.nodes| && e.JoinGateway? && e'.Join? && e.node == e'.node == i && e.mac != e'.mac
    ensures InNet(net, [e, e'])
    ensures var r := After(net, [e, e']);
            && r.nodes[i].gw == Some(Device(GatewayDevice, e.mac, e.cluster, e.convoy))
            && r.nodes[i].pr == Some(Device(MemberDevice, e'.mac, e'.cluster, e'.convoy))
            && NextHop(r, e.mac) == e.cluster && NextHop(r, e'.mac) == e'.cluster
  {
    AfterCons(net, e, [e']);
    AfterCons(Apply(net, e), e', []);
    assert [e, e'] == [e] + [e'];
  }

  lemma CommandResult(net: Net, i: nat, pr: Device, gw: Device, st: Station, msg: Command, maxIdConvoy: int, macs: Ids)
    requires Fits(net, i, pr, gw, st, macs) && CommandEvents(i, pr, gw, st, msg, maxIdConvoy, macs) != []
    ensures InNet(net, CommandEvents(i, pr, gw, st, msg, maxIdConvoy, macs))
    ensures var r := After(net, CommandEvents(i, pr, gw, st, msg, maxIdConvoy, macs));
            var pr', gw' := NewPrimary(pr, st, msg, maxIdConvoy, macs), NewGateway(gw, Detaches(pr, st, msg), st, msg);
            && r.nodes[i] == Node(Some(pr'), Some(gw'))
            && (pr'.address != 0 ==> NextHop(r, pr'.address) == pr'.manager)
            && NextHop(r, st.macGw) == if msg.role == Gateway then msg.clusterGw else NextHop(net, st.macGw)
  {
    if !Detaches(pr, st, msg) {
      ChangeResult(net, i, net.nodes[i], st, msg, macs.1);
    } else {
      var mid := Apply(net, Detach(i));
      if msg.convoy != pr.convoy && msg.convoy > maxIdConvoy {
        var found := Found(i, macs.0, maxIdConvoy + 1);
        var st' := Station(Manager, macs.0, st.macGw);
        ChangeResult(Apply(mid, found), i, Apply(mid, found).nodes[i], st', msg, macs.1);
        AfterCons(mid, found, ChangeEvents(i, st', msg, macs.1));
        AfterCons(net, Detach(i), [found] + ChangeEvents(i, st', msg, macs.1));
      } else {
        ChangeResult(mid, i, mid.nodes[i], st, msg, macs.1);
        AfterCons(net, Detach(i), ChangeEvents(i, st, msg, macs.1));
      }
    }
  }

  // ---- which commands keep the network consistent -------------------------------------------------

  ghost predicate MasterElsewhere(net: Net, i: nat, m: int) {
    exists j :: 0 <= j < |net.nodes| && j != i && IsMaster(net.nodes[j], m)
  }

  /** Cluster m has a master when station i is as given. */
  ghost predicate Served(net: Net, node: Node, i: nat, m: int) {
    MasterElsewhere(net, i, m) || IsMaster(node, m)
  }

  lemma ServedIs(net: Net, r: Net, i: nat, m: int)
    requires OnlyAt(net, r, i) && i < |net.nodes|
    ensures HasMaster(r, m) <==> Served(net, r.nodes[i], i, m)
  {
    if MasterElsewhere(net, i, m) {
      var j :| 0 <= j < |net.nodes| && j != i && IsMaster(net.nodes[j], m);
      assert IsMaster(r.nodes[j], m);
    }
    if HasMaster(r, m) {
      var j :| 0 <= j < |r.nodes| && IsMaster(r.nodes[j], m);
      assert j != i ==> IsMaster(net.nodes[j], m);
    }
  }

  ghost predicate OthersServed(net: Net, node: Node, i: nat) {
    forall j, a :: j != i && Attached(net, j, a) ==> Served(net, node, i, NextHop(net, a))
  }

  ghost predicate OwnServed(net: Net, r: Net, i: nat)
    requires i < |r.nodes|
  {
    forall a :: Attached(r, i, a) ==> Served(net, r.nodes[i], i, NextHop(r, a))
  }

  lemma ConsistentWhen(net: Net, r: Net, i: nat)
    requires Sane(r) && OnlyAt(net, r, i) && i < |net.nodes|
    ensures Consistent(r) <==> OthersServed(net, r.nodes[i], i) && OwnServed(net, r, i)
  {
    forall m ensures HasMaster(r, m) <==> Served(net, r.nodes[i], i, m) { ServedIs(net, r, i, m); }
    forall j, a | j != i && Attached(net, j, a) ensures Attached(r, j, a) && NextHop(r, a) == NextHop(net, a) {}
    if OthersServed(net, r.nodes[i], i) && OwnServed(net, r, i) {
      forall j: nat, a | Attached(r, j, a) ensures HasMaster(r, NextHop(r, a)) {
        if j != i {
          assert Owns(net.nodes[j], a);
          assert Attached(net, j, a);
        }
      }
    }
  }

  /** No other station has a device in a cluster of which station i is the master. */
  ghost predicate LeavesNobody(net: Net, i: nat) {
    i < |net.nodes| && forall j, a :: j != i && Attached(net, j, a) ==> !IsMaster(net.nodes[i], NextHop(net, a))
  }

  /** While station i is master of nothing new, the others are served as long as it leaves nobody. */
  lemma OthersWhen(net: Net, node: Node, i: nat)
    requires Consistent(net) && i < |net.nodes|
    requires forall m :: IsMaster(node, m) ==> m == 0 || Unused(net, m)
    ensures OthersServed(net, node, i) <==> LeavesNobody(net, i)
  {
    forall j, a | j != i && Attached(net, j, a)
      ensures Served(net, node, i, NextHop(net, a)) <==> !IsMaster(net.nodes[i], NextHop(net, a))
    {
      var c := NextHop(net, a);
      assert HasMaster(net, c);
      var m :| 0 <= m < |net.nodes| && IsMaster(net.nodes[m], c);
      assert Owns(net.nodes[m], c);
      if IsMaster(net.nodes[i], c) { assert Owns(net.nodes[i], c); }
    }
  }

  /** The clusters that the command names have masters other than this station; a manager that
      keeps its gateway device does not have it in its own cluster. */
  ghost predicate NamesMasters(net: Net, i: nat, pr: Device, gw: Device, st: Station, msg: Command) {
    match msg.role
    case Undefined => true
    case Manager =>
      Detaches(pr, st, msg) || !Attached(net, i, gw.address) || MasterElsewhere(net, i, NextHop(net, gw.address))
    case Member => msg.cluster == 0 || MasterElsewhere(net, i, msg.cluster)
    case Gateway =>
      && (msg.cluster == 0 || MasterElsewhere(net, i, msg.cluster))
      && (msg.clusterGw == 0 || MasterElsewhere(net, i, msg.clusterGw))
  }

  lemma OwnWhen(
    net: Net, r: Net, i: nat, pr: Device, gw: Device, st: Station, msg: Command, maxIdConvoy: int, macs: Ids)
    requires Consistent(net) && Fits(net, i, pr, gw, st, macs) && i < |r.nodes|
    requires msg.role == Undefined ==> Detaches(pr, st, msg)
    requires var pr', gw' := NewPrimary(pr, st, msg, maxIdConvoy, macs), NewGateway(gw, Detaches(pr, st, msg), st, msg);
             && r.nodes[i] == Node(Some(pr'), Some(gw'))
             && (pr'.address != 0 ==> NextHop(r, pr'.address) == pr'.manager)
             && NextHop(r, st.macGw) == if msg.role == Gateway then msg.clusterGw else NextHop(net, st.macGw)
    ensures OwnServed(net, r, i) <==> NamesMasters(net, i, pr, gw, st, msg)
  {
    var pr', gw' := NewPrimary(pr, st, msg, maxIdConvoy, macs), NewGateway(gw, Detaches(pr, st, msg), st, msg);
    assert forall a :: Attached(r, i, a) <==> a != 0 && (a == pr'.address || a == gw'.address) && NextHop(r, a) != 0;
    assert Attached(r, i, pr'.address) <==> pr'.address != 0 && pr'.manager != 0;
    if !Detaches(pr, st, msg) && gw.address != 0 && NextHop(net, gw.address) != 0 {
      assert Attached(net, i, gw.address);
      var c := NextHop(net, gw.address);
      var m :| 0 <= m < |net.nodes| && IsMaster(net.nodes[m], c);
      assert Owns(net.nodes[m], c);
    }
  }

  /** A command keeps the network consistent exactly when it is ignored, or names clusters that have
      a master and takes no master away from devices of others. */
  lemma CommandKeepsWhen(
    net: Net, i: nat, pr: Device, gw: Device, st: Station, msg: Command, maxIdConvoy: int, macs: Ids)
    requires Consistent(net) && Fits(net, i, pr, gw, st, macs)
    ensures InNet(net, CommandEvents(i, pr, gw, st, msg, maxIdConvoy, macs))
    ensures var events := CommandEvents(i, pr, gw, st, msg, maxIdConvoy, macs);
            Consistent(After(net, events)) <==>
              events == [] || (LeavesNobody(net, i) && NamesMasters(net, i, pr, gw, st, msg))
  {
    var events := CommandEvents(i, pr, gw, st, msg, maxIdConvoy, macs);
    CommandOnlyAt(net, i, pr, gw, st, msg, maxIdConvoy, macs);
    if events != [] {
      var r := After(net, events);
      CommandResult(net, i, pr, gw, st, msg, maxIdConvoy, macs);
      ConsistentWhen(net, r, i);
      OthersWhen(net, r.nodes[i], i);
      OwnWhen(net, r, i, pr, gw, st, msg, maxIdConvoy, macs);
    }
  }

  // ---- packets after a command that does not ------------------------------------------------------

  /** Whenever a manager obeys a command, nobody has the address of its cluster any more, and its
      members lose every packet they send each other. */
  lemma DissolvedClusterLoses(
    net: Net, i: nat, pr: Device, gw: Device, st: Station, msg: Command, maxIdConvoy: int, macs: Ids,
    s: nat, dst: int, t: nat, limit: nat)
    requires Sane(net) && Fits(net, i, pr, gw, st, macs)
    requires st.role == Manager && IsMaster(net.nodes[i], pr.manager) && pr.manager != 0
    requires CommandEvents(i, pr, gw, st, msg, maxIdConvoy, macs) != []
    requires s != i && t != i && s < |net.nodes| && Attached(net, t, dst) && NextHop(net, dst) == pr.manager
    requires ChooseHop(net, net.nodes[s], dst) == Some(pr.manager)
    ensures InNet(net, CommandEvents(i, pr, gw, st, msg, maxIdConvoy, macs))
    ensures Travel(After(net, CommandEvents(i, pr, gw, st, msg, maxIdConvoy, macs)), s, dst, limit + 2) ==
            Lost(pr.manager)
  {
    var c := pr.manager;
    CommandOnlyAt(net, i, pr, gw, st, msg, maxIdConvoy, macs);
    CommandResult(net, i, pr, gw, st, msg, maxIdConvoy, macs);
    var r := After(net, CommandEvents(i, pr, gw, st, msg, maxIdConvoy, macs));
    assert Owns(net.nodes[i], c) && RightKinds(net.nodes[s]);
    forall j | 0 <= j < |r.nodes| ensures !Owns(r.nodes[j], c) {}
    var h := Holder(r.nodes, c);
    assert h.None?;
    PacketFate(r, s, dst, t, limit);
  }

  /** Three stations, of which the last founds a cluster that the others hear of and join. */
  ghost function JoinedNet(): (net: Net) {
    var start := StartNet([(1, 2), (3, 4), (5, 6)]);
    Apply(Apply(Apply(start, Found(2, 7, 1)), Join(0, 1, 7, 1)), Join(1, 3, 7, 1))
  }

  function MemberOf(mac: int, cluster: int): Device {
    Device(MemberDevice, mac, cluster, 1)
  }

  function Idle(mac: int): Device {
    Device(GatewayDevice, mac, 0, 0)
  }

  lemma JoinedStart()
    ensures var start := StartNet([(1, 2), (3, 4), (5, 6)]);
            && |start.nodes| == 3 && Consistent(start)
            && start.nodes[0] == FreshNode((1, 2))
            && start.nodes[1] == FreshNode((3, 4))
            && start.nodes[2] == FreshNode((5, 6))
  {
    var ids := [(1, 2), (3, 4), (5, 6)];
    StartNodes(ids, 0);
    StartNodes(ids, 1);
    StartNodes(ids, 2);
    StartIsConsistent(ids);
  }

  lemma JoinedSteps(start: Net, one: Net, two: Net)
    requires Consistent(start) && |start.nodes| == 3
    requires start.nodes == [FreshNode((1, 2)), FreshNode((3, 4)), FreshNode((5, 6))]
    requires one == Apply(start, Found(2, 7, 1)) && two == Apply(one, Join(0, 1, 7, 1))
    ensures Legal(start, Found(2, 7, 1)) && Legal(one, Join(0, 1, 7, 1)) && Legal(two, Join(1, 3, 7, 1))
    ensures Consistent(Apply(two, Join(1, 3, 7, 1)))
  {
    EventKeeps(start, Found(2, 7, 1));
    assert IsMaster(one.nodes[2], 7);
    EventKeeps(one, Join(0, 1, 7, 1));
    assert IsMaster(two.nodes[2], 7);
    EventKeeps(two, Join(1, 3, 7, 1));
  }

  lemma ThreeLegal(net: Net, a: Event, b: Event, c: Event)
    requires Legal(net, a) && Legal(Apply(net, a), b) && Legal(Apply(Apply(net, a), b), c)
    ensures LegalRun(net, [a, b, c])
  {
    assert [a, b, c][1..] == [b, c] && [b, c][1..] == [c] && [c][1..] == [];
    assert LegalRun(Apply(Apply(net, a), b), [c]);
    assert LegalRun(Apply(net, a), [b, c]);
  }

  lemma JoinedIs()
    ensures LegalRun(StartNet([(1, 2), (3, 4), (5, 6)]), [Found(2, 7, 1), Join(0, 1, 7, 1), Join(1, 3, 7, 1)])
    ensures var net := JoinedNet();
            && |net.nodes| == 3 && Consistent(net)
            && net.nodes[0] == Node(Some(MemberOf(1, 7)), Some(Idle(2)))
            && net.nodes[1] == Node(Some(MemberOf(3, 7)), Some(Idle(4)))
  {
    JoinedStart();
    var start := StartNet([(1, 2), (3, 4), (5, 6)]);
    var one := Apply(start, Found(2, 7, 1));
    JoinedSteps(start, one, Apply(one, Join(0, 1, 7, 1)));
    ThreeLegal(start, Found(2, 7, 1), Join(0, 1, 7, 1), Join(1, 3, 7, 1));
  }

  lemma CircleIn(net: Net, limit: nat)
    requires Sane(net) && |net.nodes| >= 2 && NextHop(net, 3) == 1
    requires net.nodes[0] == Node(Some(MemberOf(1, 1)), Some(Idle(2)))
    requires net.nodes[1] == Node(Some(MemberOf(3, 1)), Some(Idle(4)))
    ensures Travel(net, 0, 3, limit + 2) == StillGoing(0)
  {
    HolderIs(net, 0, 1);
    ThroughManager(net, 0, 3, 1, 1, 0, limit);
  }

  /** A member told to join another cluster, in the same role and convoy, just joins it. */
  lemma ToldToJoin(net: Net, i: nat, mac: int, idle: int, macs: Ids)
    requires i < |net.nodes|
    ensures var st, msg := Station(Member, mac, idle), Command(Member, 1, 1, 0);
            var events := CommandEvents(i, MemberOf(mac, 7), Idle(idle), st, msg, 1, macs);
            events == [Join(i, mac, 1, 1)] && InNet(net, events) && After(net, events) == Apply(net, Join(i, mac, 1, 1))
  {
    var e := Join(i, mac, 1, 1);
    assert [e][1..] == [];
  }

  /** Then both members are told to join, in the same role and convoy, the cluster of the first
      one's own address: a packet from the first to the second circles. */
  lemma CommandsCanCircle(limit: nat)
    ensures var net, msg := JoinedNet(), Command(Member, 1, 1, 0);
            var first := CommandEvents(0, MemberOf(1, 7), Idle(2), Station(Member, 1, 2), msg, 1, (8, 9));
            var second := CommandEvents(1, MemberOf(3, 7), Idle(4), Station(Member, 3, 4), msg, 1, (8, 9));
            && InNet(net, first) && InNet(After(net, first), second)
            && After(net, first).nodes[1] == Node(Some(MemberOf(3, 7)), Some(Idle(4)))
            && Travel(After(After(net, first), second), 0, 3, limit + 2) == StillGoing(0)
  {
    JoinedIs();
    var net := JoinedNet();
    ToldToJoin(net, 0, 1, 2, (8, 9));
    var one := Apply(net, Join(0, 1, 1, 1));
    ToldToJoin(one, 1, 3, 4, (8, 9));
    EventKeepsSane(net, Join(0, 1, 1, 1));
    EventKeepsSane(one, Join(1, 3, 1, 1));
    CircleIn(Apply(one, Join(1, 3, 1, 1)), limit);
  }
}
