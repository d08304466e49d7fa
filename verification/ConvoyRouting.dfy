/**
 convoy_architecture::RoutingControl: where a node forwards a packet, what a node does with a
 packet from the network, and why packets with a route arrive within two network hops.
 */
module ConvoyRouting {
  import opened Options
  import opened ConvoyTypes

  /** A station with its primary and gateway devices; the backend has none. */
  datatype Node = Node(pr: Option<Device>, gw: Option<Device>)

  /** All stations, and the binder's next-hop table. */
  datatype Net = Net(nodes: seq<Node>, nextHop: map<int, int>)

  function NextHop(net: Net, address: int): (hop: int) {
    if address in net.nextHop then net.nextHop[address] else 0
  }

  function ManagerOf(device: Option<Device>): (m: int) {
    if device.None? then 0 else device.value.manager
  }

  /** clusterMatch: the type of this node's device in the cluster, primary device first. */
  function ClusterMatch(node: Node, cluster: int): (kind: DeviceType) {
    if node.pr.Some? && cluster == node.pr.value.manager then node.pr.value.kind
    else if node.gw.Some? && cluster == node.gw.value.manager then node.gw.value.kind
    else UnknownDevice
  }

  /** The next hop that forwardToNetwork writes into the packet, if there is a route. */
  function ChooseHop(net: Net, node: Node, dst: int): (hop: Option<int>) {
    match ClusterMatch(node, NextHop(net, dst))
    case MasterDevice => Some(dst)
    case MemberDevice => Some(ManagerOf(node.pr))
    case GatewayDevice => Some(ManagerOf(node.gw))
    case UnknownDevice => None
  }

  /** The address is that of the primary or of the gateway device. */
  predicate Owns(node: Node, address: int) {
    (node.pr.Some? && node.pr.value.address == address) || (node.gw.Some? && node.gw.value.address == address)
  }

  /** The station that a device address belongs to. */
  function Holder(nodes: seq<Node>, address: int): (r: Option<nat>)
    ensures r.Some? ==> r.value < |nodes| && Owns(nodes[r.value], address)
    ensures r.None? ==> forall i :: 0 <= i < |nodes| ==> !Owns(nodes[i], address)
  {
    if nodes == [] then None
    else if Owns(nodes[|nodes| - 1], address) then Some(|nodes| - 1)
    else Holder(nodes[..|nodes| - 1], address)
  }

  datatype Outcome = Delivered(node: nat, hops: nat) | NoRoute(node: nat) | Lost(address: int) | StillGoing(node: nat)

  /** A packet that a node hands to the network, followed for at most limit hops: each receiver
      takes it if it owns the destination, else forwards it. */
  function Travel(net: Net, at: nat, dst: int, limit: nat): (r: Outcome)
    requires at < |net.nodes|
    decreases limit
  {
    match ChooseHop(net, net.nodes[at], dst)
    case None => NoRoute(at)
    case Some(hop) =>
      if limit == 0 then StillGoing(at)
      else
        match Holder(net.nodes, hop)
        case None => Lost(hop)
        case Some(next) =>
          if Owns(net.nodes[next], dst) then Delivered(next, 1)
          else
            var rest := Travel(net, next, dst, limit - 1);
            if rest.Delivered? then Delivered(rest.node, rest.hops + 1) else rest
  }

  /** A packet from the backend that arrives at a station: taken or handed to the network. */
  function FromBackend(net: Net, at: nat, dst: int, limit: nat): (r: Outcome)
    requires at < |net.nodes|
  {
    if Owns(net.nodes[at], dst) then Delivered(at, 0) else Travel(net, at, dst, limit)
  }

  // ---- consistent membership --------------------------------------------------------------------

  ghost predicate IsMaster(node: Node, m: int) {
    node.pr.Some? && node.pr.value.kind == MasterDevice && node.pr.value.address == node.pr.value.manager == m
  }

  ghost predicate HasMaster(net: Net, m: int) {
    exists i :: 0 <= i < |net.nodes| && IsMaster(net.nodes[i], m)
  }

  ghost predicate RightKinds(node: Node) {
    && (node.pr.Some? ==> node.pr.value.kind == MasterDevice || node.pr.value.kind == MemberDevice)
    && (node.gw.Some? ==> node.gw.value.kind == GatewayDevice)
  }

  /** Addresses are unique and devices are of their interface's kinds. */
  ghost predicate Sane(net: Net) {
    && (forall i, j, a ::
          0 <= i < |net.nodes| && 0 <= j < |net.nodes| && a != 0 && Owns(net.nodes[i], a) && Owns(net.nodes[j], a) ==>
            i == j)
    && (forall i :: 0 <= i < |net.nodes| ==> RightKinds(net.nodes[i]))
  }

  /** Node i has a device of this address, and the binder knows its next hop. */
  predicate Attached(net: Net, i: nat, a: int) {
    i < |net.nodes| && a != 0 && Owns(net.nodes[i], a) && NextHop(net, a) != 0
  }

  /** And the next hop of every attached device is a master. */
  ghost predicate Consistent(net: Net) {
    Sane(net) && forall i, a :: Attached(net, i, a) ==> HasMaster(net, NextHop(net, a))
  }

  lemma HolderIs(net: Net, i: nat, a: int)
    requires Sane(net) && i < |net.nodes| && a != 0 && Owns(net.nodes[i], a)
    ensures Holder(net.nodes, a) == Some(i)
  {
    var h := Holder(net.nodes, a);
    assert h.Some?;
  }

  /** The manager of a cluster delivers directly. */
  lemma MasterDelivers(net: Net, s: nat, dst: int, t: nat, limit: nat)
    requires Sane(net) && s < |net.nodes| && t < |net.nodes| && dst != 0 && Owns(net.nodes[t], dst) && limit >= 1
    requires ChooseHop(net, net.nodes[s], dst) == Some(dst)
    ensures Travel(net, s, dst, limit) == Delivered(t, 1)
  {
    HolderIs(net, t, dst);
  }

  /** A packet with a route reaches the owner of its destination in one hop, or in two through
      the manager of the destination's cluster. */
  lemma DeliveredInTwo(net: Net, s: nat, dst: int, t: nat, limit: nat)
    requires Consistent(net) && s < |net.nodes| && t < |net.nodes| && limit >= 2
    requires dst != 0 && Owns(net.nodes[t], dst) && NextHop(net, dst) != 0
    requires ChooseHop(net, net.nodes[s], dst).Some?
    ensures Travel(net, s, dst, limit) == Delivered(t, 1) || Travel(net, s, dst, limit) == Delivered(t, 2)
  {
    var cluster := NextHop(net, dst);
    assert Attached(net, t, dst) && HasMaster(net, cluster);
    var m :| 0 <= m < |net.nodes| && IsMaster(net.nodes[m], cluster);
    var hop := ChooseHop(net, net.nodes[s], dst).value;
    if hop == dst {
      MasterDelivers(net, s, dst, t, limit);
    } else {
      assert RightKinds(net.nodes[s]);
      assert hop == cluster;
      HolderIs(net, m, cluster);
      if Owns(net.nodes[m], dst) {
        HolderIs(net, m, dst);
        HolderIs(net, t, dst);
      } else {
        assert ChooseHop(net, net.nodes[m], dst) == Some(dst);
        MasterDelivers(net, m, dst, t, limit - 1);
      }
    }
  }

  lemma BackendDeliveredInTwo(net: Net, s: nat, dst: int, t: nat, limit: nat)
    requires Consistent(net) && s < |net.nodes| && t < |net.nodes| && limit >= 2
    requires dst != 0 && Owns(net.nodes[t], dst) && NextHop(net, dst) != 0
    requires ChooseHop(net, net.nodes[s], dst).Some?
    ensures var r := FromBackend(net, s, dst, limit); r.Delivered? && r.node == t && r.hops <= 2
  {
    if Owns(net.nodes[s], dst) {
      HolderIs(net, s, dst);
      HolderIs(net, t, dst);
    } else {
      DeliveredInTwo(net, s, dst, t, limit);
    }
  }

  /** Exactly the nodes with a device in the destination's cluster have a route. */
  lemma RouteWhen(net: Net, node: Node, dst: int)
    requires RightKinds(node)
    ensures ChooseHop(net, node, dst).Some? <==>
              || (node.pr.Some? && node.pr.value.manager == NextHop(net, dst))
              || (node.gw.Some? && node.gw.value.manager == NextHop(net, dst))
  {}

  // ---- the fate of a packet in any network --------------------------------------------------------

  /** A node that owns the next hop but is not its master sends the packet to itself for ever. */
  lemma {:induction false} Circles(net: Net, m: nat, dst: int, c: int, limit: nat)
    requires m < |net.nodes| && Holder(net.nodes, c) == Some(m) && !Owns(net.nodes[m], dst)
    requires ChooseHop(net, net.nodes[m], dst) == Some(c)
    ensures Travel(net, m, dst, limit) == StillGoing(m)
  {
    if limit > 0 { Circles(net, m, dst, c, limit - 1); }
  }

  /** What decides delivery: the sender reaches the destination itself, or the station that gets
      the first hop has the destination or is master of the destination's cluster. */
  ghost predicate Reaches(net: Net, node: Node, dst: int) {
    var c := NextHop(net, dst);
    || ChooseHop(net, node, dst) == Some(dst)
    || (var m := Holder(net.nodes, c); m.Some? && PassesOn(net.nodes[m.value], c, dst))
  }

  predicate PassesOn(node: Node, c: int, dst: int) {
    Owns(node, dst) || ClusterMatch(node, c) == MasterDevice
  }

  /** Beyond the first hop, at the station that gets it. */
  lemma ThroughManager(net: Net, s: nat, dst: int, t: nat, c: int, m: nat, limit: nat)
    requires Sane(net) && s < |net.nodes| && t < |net.nodes| && m < |net.nodes|
    requires dst != 0 && Owns(net.nodes[t], dst) && c == NextHop(net, dst) && c != dst
    requires Holder(net.nodes, c) == Some(m) && ChooseHop(net, net.nodes[s], dst) == Some(c)
    ensures Travel(net, s, dst, limit + 2) ==
            if Owns(net.nodes[m], dst) then Delivered(t, 1)
            else match ClusterMatch(net.nodes[m], c)
                 case MasterDevice => Delivered(t, 2)
                 case UnknownDevice => NoRoute(m)
                 case _ => StillGoing(m)
  {
    HolderIs(net, t, dst);
    assert RightKinds(net.nodes[m]);
    if Owns(net.nodes[m], dst) {
      HolderIs(net, m, dst);
    } else if ClusterMatch(net.nodes[m], c) == MasterDevice {
      MasterDelivers(net, m, dst, t, limit + 1);
    } else if ClusterMatch(net.nodes[m], c) != UnknownDevice {
      assert ChooseHop(net, net.nodes[m], dst) == Some(c);
      Circles(net, m, dst, c, limit + 1);
    }
  }

  /** Delivery in any network with unique addresses: it takes exactly the condition above, and
      without it the packet is lost at an address nobody owns, stops without a route, or circles. */
  lemma PacketFate(net: Net, s: nat, dst: int, t: nat, limit: nat)
    requires Sane(net) && s < |net.nodes| && t < |net.nodes| && dst != 0 && Owns(net.nodes[t], dst)
    requires ChooseHop(net, net.nodes[s], dst).Some?
    ensures var r, c := Travel(net, s, dst, limit + 2), NextHop(net, dst);
            && (r.Delivered? <==> Reaches(net, net.nodes[s], dst))
            && (r.Delivered? ==> r.node == t && 1 <= r.hops <= 2)
            && (!r.Delivered? ==>
                  r == match Holder(net.nodes, c)
                       case None => Lost(c)
                       case Some(m) =>
                         if ClusterMatch(net.nodes[m], c) == UnknownDevice then NoRoute(m) else StillGoing(m))
  {
    var c := NextHop(net, dst);
    assert RightKinds(net.nodes[s]);
    if ChooseHop(net, net.nodes[s], dst) == Some(dst) {
      MasterDelivers(net, s, dst, t, limit + 2);
    } else {
      assert ChooseHop(net, net.nodes[s], dst) == Some(c);
      var m := Holder(net.nodes, c);
      if m.Some? {
        assert RightKinds(net.nodes[m.value]);
        ThroughManager(net, s, dst, t, c, m.value, limit);
      }
    }
  }

  /** A destination that is attached nowhere has next hop 0. Every node with an idle device has a
      route to it, unless the idle device is a detached master it leads to address 0: to nobody, or
      to a node with a detached device, which sends the packet to itself if it is no master. */
  lemma UnattachedFate(net: Net, s: nat, dst: int, t: nat, limit: nat)
    requires Sane(net) && s < |net.nodes| && t < |net.nodes| && dst != 0 && Owns(net.nodes[t], dst)
    requires NextHop(net, dst) == 0
    ensures Travel(net, s, dst, limit + 2) ==
            match ClusterMatch(net.nodes[s], 0)
            case UnknownDevice => NoRoute(s)
            case MasterDevice => Delivered(t, 1)
            case _ =>
              match Holder(net.nodes, 0)
              case None => Lost(0)
              case Some(m) =>
                if Owns(net.nodes[m], dst) then Delivered(t, 1)
                else match ClusterMatch(net.nodes[m], 0)
                     case MasterDevice => Delivered(t, 2)
                     case UnknownDevice => NoRoute(m)
                     case _ => StillGoing(m)
  {
    assert RightKinds(net.nodes[s]);
    var kind := ClusterMatch(net.nodes[s], 0);
    if kind == MasterDevice {
      MasterDelivers(net, s, dst, t, limit + 2);
    } else if kind != UnknownDevice {
      assert ChooseHop(net, net.nodes[s], dst) == Some(0);
      var m := Holder(net.nodes, 0);
      if m.Some? { ThroughManager(net, s, dst, t, 0, m.value, limit); }
    }
  }
}
