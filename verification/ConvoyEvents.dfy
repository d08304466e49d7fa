/**
 How stations change the network: joining, founding and leaving clusters, after a scan or on
 command. Which events keep every packet with a route deliverable, and which do not.
 */
module ConvoyEvents {
  import opened Options
  import opened ConvoyTypes
  import opened ConvoyRouting

  /** A node joins a cluster with its primary or its gateway device, replaces its primary device
      by a master, or detaches both devices. */
  datatype Event =
    | Join(node: nat, mac: int, cluster: int, convoy: int)
    | JoinGateway(node: nat, mac: int, cluster: int, convoy: int)
    | Found(node: nat, mac: int, convoy: int)
    | Detach(node: nat)

  function Cleared(device: Option<Device>): (d: Option<Device>) {
    if device.None? then None else Some(Device(device.value.kind, 0, 0, 0))
  }

  /** The binder keeps the next hop of a detached device. */
  function Apply(net: Net, e: Event): (r: Net)
    requires e.node < |net.nodes|
    ensures |r.nodes| == |net.nodes| && forall j :: 0 <= j < |net.nodes| && j != e.node ==> r.nodes[j] == net.nodes[j]
  {
    var node := net.nodes[e.node];
    match e
    case Join(i, mac, cluster, convoy) =>
      Net(net.nodes[i := node.(pr := Some(Device(MemberDevice, mac, cluster, convoy)))], net.nextHop[mac := cluster])
    case JoinGateway(i, mac, cluster, convoy) =>
      Net(net.nodes[i := node.(gw := Some(Device(GatewayDevice, mac, cluster, convoy)))], net.nextHop[mac := cluster])
    case Found(i, mac, convoy) =>
      Net(net.nodes[i := node.(pr := Some(Device(MasterDevice, mac, mac, convoy)))], net.nextHop[mac := mac])
    case Detach(i) =>
      Net(net.nodes[i := Node(Cleared(node.pr), Cleared(node.gw))], net.nextHop)
  }

  /** No other node has the address. */
  ghost predicate Free(net: Net, i: nat, mac: int) {
    mac != 0 && forall j :: 0 <= j < |net.nodes| && j != i ==> !Owns(net.nodes[j], mac)
  }

  /** The device address is the node's own. */
  ghost predicate OwnAddress(net: Net, e: Event) {
    e.node < |net.nodes| && (!e.Detach? ==> Free(net, e.node, e.mac))
  }

  /** Every event leaves addresses unique and devices of the right kinds. */
  lemma EventKeepsSane(net: Net, e: Event)
    requires Sane(net) && OwnAddress(net, e)
    ensures Sane(Apply(net, e))
  {
    var r := Apply(net, e);
    forall i, j, a | 0 <= i < |r.nodes| && 0 <= j < |r.nodes| && a != 0 && Owns(r.nodes[i], a) && Owns(r.nodes[j], a)
      ensures i == j
    {
      assert i != e.node ==> Owns(net.nodes[i], a);
      assert j != e.node ==> Owns(net.nodes[j], a);
      assert (!e.Detach? && a == e.mac) || Owns(net.nodes[e.node], a) || (i != e.node && j != e.node);
    }
    forall i | 0 <= i < |r.nodes| ensures RightKinds(r.nodes[i]) { assert RightKinds(net.nodes[i]); }
  }

  // ---- which events keep the network consistent -----------------------------------------------------

  /** The event takes the cluster its master. */
  ghost predicate Dissolves(net: Net, e: Event, c: int) {
    e.node < |net.nodes| && !e.JoinGateway? && IsMaster(net.nodes[e.node], c) && !(e.Found? && e.mac == c)
  }

  lemma MastersAfter(net: Net, e: Event, m: int)
    requires Sane(net) && OwnAddress(net, e) && m != 0
    ensures HasMaster(Apply(net, e), m) <==> (e.Found? && e.mac == m) || (HasMaster(net, m) && !Dissolves(net, e, m))
  {
    var r := Apply(net, e);
    if HasMaster(net, m) && !Dissolves(net, e, m) {
      var i :| 0 <= i < |net.nodes| && IsMaster(net.nodes[i], m);
      assert IsMaster(r.nodes[i], m);
    }
    if e.Found? && e.mac == m { assert IsMaster(r.nodes[e.node], m); }
    if HasMaster(r, m) {
      var i :| 0 <= i < |r.nodes| && IsMaster(r.nodes[i], m);
      if i != e.node {
        assert IsMaster(net.nodes[i], m) && Owns(net.nodes[i], m);
        if Dissolves(net, e, m) { assert Owns(net.nodes[e.node], m); }
      }
    }
  }

  /** A device that the event leaves alone has next hop c. */
  ghost predicate StaysAttached(net: Net, e: Event, i: nat, a: int, c: int)
    requires e.node < |net.nodes|
  {
    i < |net.nodes| && a != 0 && Owns(Apply(net, e).nodes[i], a) && (e.Detach? || a != e.mac) && NextHop(net, a) == c
  }

  /** The joined cluster has a master, and no device stays behind in a cluster that loses its own. */
  ghost predicate Harmless(net: Net, e: Event)
    requires e.node < |net.nodes|
  {
    && ((e.Join? || e.JoinGateway?) && e.cluster != 0 ==> HasMaster(net, e.cluster) && !Dissolves(net, e, e.cluster))
    && (forall i, a, c :: c != 0 && StaysAttached(net, e, i, a, c) ==> !Dissolves(net, e, c))
  }

  /** An event keeps the network consistent exactly when it is harmless. */
  lemma EventKeepsWhen(net: Net, e: Event)
    requires Consistent(net) && OwnAddress(net, e)
    ensures Consistent(Apply(net, e)) <==> Harmless(net, e)
  {
    var r := Apply(net, e);
    EventKeepsSane(net, e);
    if Harmless(net, e) {
      forall i, a | Attached(r, i, a) ensures HasMaster(r, NextHop(r, a)) {
        MastersAfter(net, e, NextHop(r, a));
        if e.Detach? || a != e.mac {
          assert StaysAttached(net, e, i, a, NextHop(net, a));
          assert Attached(net, i, a);
        }
      }
    }
    if Consistent(r) {
      if (e.Join? || e.JoinGateway?) && e.cluster != 0 {
        assert Attached(r, e.node, e.mac);
        MastersAfter(net, e, e.cluster);
      }
      forall i, a, c | c != 0 && StaysAttached(net, e, i, a, c) ensures !Dissolves(net, e, c) {
        assert Attached(r, i, a);
        MastersAfter(net, e, c);
      }
    }
  }

  /** No master gives up its cluster, and the joined cluster is that of a master: broadcasts
      come from masters only. */
  ghost predicate Legal(net: Net, e: Event) {
    && OwnAddress(net, e)
    && (!e.JoinGateway? && net.nodes[e.node].pr.Some? ==> net.nodes[e.node].pr.value.kind != MasterDevice)
    && (e.Join? || e.JoinGateway? ==> e.cluster != 0 && HasMaster(net, e.cluster))
  }

  lemma EventKeeps(net: Net, e: Event)
    requires Consistent(net) && Legal(net, e)
    ensures Consistent(Apply(net, e)) && Harmless(net, e)
    ensures forall m :: m != 0 && HasMaster(net, m) ==> HasMaster(Apply(net, e), m)
  {
    EventKeepsWhen(net, e);
    forall m | m != 0 && HasMaster(net, m) ensures HasMaster(Apply(net, e), m) { MastersAfter(net, e, m); }
  }

  // ---- runs -----------------------------------------------------------------------------------------

  ghost predicate InNet(net: Net, events: seq<Event>)
    decreases |events|
  {
    events == [] || (events[0].node < |net.nodes| && InNet(Apply(net, events[0]), events[1..]))
  }

  ghost function After(net: Net, events: seq<Event>): (r: Net)
    requires InNet(net, events)
    ensures |r.nodes| == |net.nodes|
    decreases |events|
  {
    if events == [] then net else After(Apply(net, events[0]), events[1..])
  }

  /** A sequence of legal events. */
  ghost predicate LegalRun(net: Net, events: seq<Event>)
    decreases |events|
  {
    events == [] || (Legal(net, events[0]) && LegalRun(Apply(net, events[0]), events[1..]))
  }

  lemma {:induction false} LegalIsInNet(net: Net, events: seq<Event>)
    requires LegalRun(net, events)
    ensures InNet(net, events)
    decreases |events|
  {
    if events != [] { LegalIsInNet(Apply(net, events[0]), events[1..]); }
  }

  lemma {:induction false} RunKeeps(net: Net, events: seq<Event>)
    requires Consistent(net) && LegalRun(net, events)
    ensures InNet(net, events) && Consistent(After(net, events))
    decreases |events|
  {
    LegalIsInNet(net, events);
    if events != [] {
      EventKeeps(net, events[0]);
      RunKeeps(Apply(net, events[0]), events[1..]);
    }
  }

  /** A packet with a route, from node s to the device dst of node t. */
  ghost predicate Routed(net: Net, s: nat, dst: int, t: nat) {
    s < |net.nodes| && Attached(net, t, dst) && ChooseHop(net, net.nodes[s], dst).Some?
  }

  /** Whatever clusters the nodes join, found and leave, packets with a route arrive in two hops. */
  lemma RunDelivers(net: Net, events: seq<Event>, s: nat, dst: int, t: nat, limit: nat)
    requires Consistent(net) && LegalRun(net, events) && InNet(net, events) && limit >= 2
    requires Routed(After(net, events), s, dst, t)
    ensures var r := Travel(After(net, events), s, dst, limit); r.Delivered? && r.node == t && 1 <= r.hops <= 2
  {
    RunKeeps(net, events);
    DeliveredInTwo(After(net, events), s, dst, t, limit);
  }

  // ---- from the start --------------------------------------------------------------------------------

  /** The node ids of a station's primary and gateway devices. */
  type Ids = (int, int)

  ghost predicate DistinctIds(ids: seq<Ids>) {
    && (forall i :: 0 <= i < |ids| ==> ids[i].0 != 0 && ids[i].1 != 0)
    && (forall i, j :: 0 <= i < |ids| && 0 <= j < |ids| ==> ids[i].0 != ids[j].1)
    && (forall i, j :: 0 <= i < j < |ids| ==> ids[i].0 != ids[j].0 && ids[i].1 != ids[j].1)
  }

  function FreshNode(id: Ids): Node {
    Node(Some(Device(MemberDevice, id.0, 0, 0)), Some(Device(GatewayDevice, id.1, 0, 0)))
  }

  /** One more station registers its two devices. */
  function Started(net: Net, id: Ids): Net {
    Net(net.nodes + [FreshNode(id)], net.nextHop[id.0 := 0][id.1 := 0])
  }

  /** Stations that have just started: two devices each, attached nowhere. */
  ghost function StartNet(ids: seq<Ids>): (net: Net)
    ensures |net.nodes| == |ids|
  {
    if ids == [] then Net([], map[]) else Started(StartNet(ids[..|ids| - 1]), ids[|ids| - 1])
  }

  lemma {:induction false} StartNodes(ids: seq<Ids>, i: nat)
    requires i < |ids|
    ensures StartNet(ids).nodes[i] == FreshNode(ids[i])
  {
    if i < |ids| - 1 { StartNodes(ids[..|ids| - 1], i); }
  }

  lemma {:induction false} StartHops(ids: seq<Ids>, a: int)
    ensures NextHop(StartNet(ids), a) == 0
  {
    if ids != [] { StartHops(ids[..|ids| - 1], a); }
  }

  lemma StartIsConsistent(ids: seq<Ids>)
    requires DistinctIds(ids)
    ensures Consistent(StartNet(ids))
  {
    var net := StartNet(ids);
    forall i | 0 <= i < |ids| ensures net.nodes[i] == FreshNode(ids[i]) { StartNodes(ids, i); }
    forall i, j, a |
      0 <= i < |net.nodes| && 0 <= j < |net.nodes| && a != 0 && Owns(net.nodes[i], a) && Owns(net.nodes[j], a)
      ensures i == j
    {
      assert net.nodes[i] == FreshNode(ids[i]) && net.nodes[j] == FreshNode(ids[j]);
    }
    forall a: int ensures NextHop(net, a) == 0 { StartHops(ids, a); }
  }

  /** Whatever clusters the stations join, found and leave after the start, packets with a route
      arrive in two hops. */
  lemma StartedRunDelivers(ids: seq<Ids>, events: seq<Event>, s: nat, dst: int, t: nat, limit: nat)
    requires DistinctIds(ids) && LegalRun(StartNet(ids), events) && InNet(StartNet(ids), events) && limit >= 2
    requires Routed(After(StartNet(ids), events), s, dst, t)
    ensures var r := Travel(After(StartNet(ids), events), s, dst, limit);
            r.Delivered? && r.node == t && 1 <= r.hops <= 2
  {
    StartIsConsistent(ids);
    RunDelivers(StartNet(ids), events, s, dst, t, limit);
  }

  /** Two stations; the first has founded a cluster, its gateway device is idle. The other's
      primary device is attached nowhere: a packet to it is sent to address 0 and lost. */
  lemma UnattachedIsReachable(limit: nat)
    ensures var net := StartNet([(1, 2), (3, 4)]);
            Legal(net, Found(0, 5, 1)) && Travel(Apply(net, Found(0, 5, 1)), 0, 3, limit + 2) == Lost(0)
  {
    var ids := [(1, 2), (3, 4)];
    var net := StartNet(ids);
    StartNodes(ids, 0);
    StartNodes(ids, 1);
    StartHops(ids, 3);
    StartIsConsistent(ids);
    EventKeepsSane(net, Found(0, 5, 1));
    UnattachedFate(Apply(net, Found(0, 5, 1)), 0, 3, 1, limit);
  }
}
