/**
 convoy_architecture::MembershipControl and ClusterDevice: a node collects the broadcasts of
 the clusters around it, then joins one of them or founds a cluster or a convoy of its own.
 */
module MembershipControls {
  import opened Options
  import opened ConvoyTypes
  import opened ClusterSelection
  import opened ConvoyRouting
  import opened ConvoyEvents
  import opened ConvoyCommands

  /** What the controls ask of the binder: convoys, clusters and the next hop of a device. */
  class Binder {
    var convoys: set<int>
    var maxIdConvoy: int
    var clusters: set<(int, int)>
    var nextHop: map<int, int>

    ghost predicate Valid()
      reads this
    {
      forall c :: c in convoys ==> c <= maxIdConvoy
    }

    constructor ()
      ensures Valid() && convoys == {} && clusters == {} && nextHop == map[] && maxIdConvoy == 0
    {
      convoys, maxIdConvoy, clusters, nextHop := {}, 0, {}, map[];
    }

    method RegisterConvoy(id: int)
      requires Valid()
      modifies this`convoys, this`maxIdConvoy
      ensures Valid() && convoys == old(convoys) + {id}
      ensures maxIdConvoy == if id > old(maxIdConvoy) then id else old(maxIdConvoy)
    {
      convoys := convoys + {id};
      if id > maxIdConvoy { maxIdConvoy := id; }
    }

    /** A master is its own next hop; a device that is not attached has none. */
    method RegisterDevice(kind: DeviceType, address: int) returns (hop: int)
      modifies this`nextHop
      ensures hop == (if kind == MasterDevice then address else 0)
      ensures nextHop == old(nextHop)[address := hop]
    {
      hop := if kind == MasterDevice then address else 0;
      nextHop := nextHop[address := hop];
    }
  }

  class ClusterDevice {
    /** The node id that the binder gave to the device. */
    const macNodeId: int
    const kind: DeviceType
    var address: int
    var manager: int
    var convoy: int

    ghost function Value(): Device
      reads this
    {
      Device(kind, address, manager, convoy)
    }

    /** setType, then configureAndStart. */
    constructor ConfigureAndStart(kind: DeviceType, convoy: int, macNodeId: int, hop: int)
      ensures Value() == Device(kind, macNodeId, hop, convoy) && this.macNodeId == macNodeId && this.kind == kind
    {
      this.macNodeId, this.kind := macNodeId, kind;
      this.convoy, address, manager := convoy, macNodeId, hop;
    }

    /** Attaching makes the cluster's manager the device's next hop; a master stays as it is. */
    method JoinNewCluster(convoy: int, cluster: int, binder: Binder)
      modifies this, binder`nextHop
      ensures kind != MasterDevice ==> Value() == Device(kind, macNodeId, cluster, convoy)
      ensures kind != MasterDevice ==> binder.nextHop == old(binder.nextHop)[macNodeId := cluster]
      ensures kind == MasterDevice ==> Value() == old(Value()) && binder.nextHop == old(binder.nextHop)
    {
      if kind != MasterDevice {
        binder.nextHop := binder.nextHop[macNodeId := cluster];
        address := macNodeId;
        manager := cluster;
        this.convoy := convoy;
      }
    }

    method DetachFromCluster()
      modifies this
      ensures Value() == Device(kind, 0, 0, 0)
    {
      address, manager, convoy := 0, 0, 0;
    }
  }

  class MembershipControl {
    const direction: int
    const minRssi: real
    const binder: Binder
    var role: Role
    var initialized: bool
    var devicePr: ClusterDevice
    var deviceGw: ClusterDevice
    var broadcastsReceived: seq<Broadcast>
    /** Every broadcast so far, in the order of arrival. */
    ghost var received: seq<Broadcast>

    ghost predicate Valid()
      reads this, binder
    {
      binder.Valid() && broadcastsReceived == Table(received)
    }

    constructor (direction: int, minRssi: real, binder: Binder, macPr: int, macGw: int)
      requires binder.Valid()
      modifies binder`nextHop
      ensures Valid() && received == [] && role == Undefined && !initialized && this.binder == binder
      ensures fresh(devicePr) && fresh(deviceGw) && devicePr != deviceGw
      ensures devicePr.Value() == Device(MemberDevice, macPr, 0, 0)
      ensures deviceGw.Value() == Device(GatewayDevice, macGw, 0, 0)
      ensures Shape() && StationOf() == Station(Undefined, macPr, macGw)
      ensures binder.nextHop == old(binder.nextHop)[macPr := 0][macGw := 0]
      ensures this.direction == direction && this.minRssi == minRssi
    {
      this.direction, this.minRssi, this.binder := direction, minRssi, binder;
      role, initialized, broadcastsReceived, received := Undefined, false, [], [];
      var hop := binder.RegisterDevice(MemberDevice, macPr);
      devicePr := new ClusterDevice.ConfigureAndStart(MemberDevice, 0, macPr, hop);
      hop := binder.RegisterDevice(GatewayDevice, macGw);
      deviceGw := new ClusterDevice.ConfigureAndStart(GatewayDevice, 0, macGw, hop);
    }

    /** The broadcast branch of receiveSignal. */
    method ReceiveBroadcast(b: Broadcast)
      requires Valid()
      modifies this`broadcastsReceived, this`received
      ensures Valid() && received == old(received) + [b]
    {
      var i := 0;
      while i < |broadcastsReceived| && broadcastsReceived[i].cluster != b.cluster
        invariant 0 <= i <= |broadcastsReceived|
        invariant IndexOf(broadcastsReceived, b.cluster) == i + IndexOf(broadcastsReceived[i..], b.cluster)
      {
        i := i + 1;
      }
      if i < |broadcastsReceived| {
        broadcastsReceived := broadcastsReceived[i := b];
      } else {
        broadcastsReceived := broadcastsReceived + [b];
      }
      received := received + [b];
      assert received[..|received| - 1] == old(received);
    }

    /** The cluster that goes with the primary device. */
    function OwnCluster(): (c: set<(int, int)>)
      reads this, devicePr
    {
      if devicePr.kind == MasterDevice then {(devicePr.convoy, devicePr.manager)} else {}
    }

    /** The old primary device goes, a master of the given convoy takes its place. */
    method CreateNewCluster(convoy: int, mac: int)
      requires Valid()
      modifies this`devicePr, this`role, this`initialized, binder`nextHop, binder`clusters
      ensures Valid() && role == Manager && initialized
      ensures fresh(devicePr) && devicePr.Value() == Device(MasterDevice, mac, mac, convoy) && devicePr.macNodeId == mac
      ensures binder.nextHop == old(binder.nextHop)[mac := mac]
      ensures old(devicePr.kind) == MasterDevice ==>
                binder.clusters == old(binder.clusters - {(devicePr.convoy, devicePr.manager)}) + {(convoy, mac)}
      ensures old(devicePr.kind) != MasterDevice ==> binder.clusters == old(binder.clusters) + {(convoy, mac)}
    {
      binder.clusters := binder.clusters - OwnCluster();
      var hop := binder.RegisterDevice(MasterDevice, mac);
      devicePr := new ClusterDevice.ConfigureAndStart(MasterDevice, convoy, mac, hop);
      binder.clusters := binder.clusters + {(convoy, devicePr.manager)};
      role, initialized := Manager, true;
    }

    method CreateNewConvoy(mac: int)
      requires Valid()
      modifies this`devicePr, this`role, this`initialized, binder
      ensures Valid() && role == Manager && initialized
      ensures binder.maxIdConvoy == old(binder.maxIdConvoy) + 1 && binder.maxIdConvoy !in old(binder.convoys)
      ensures binder.convoys == old(binder.convoys) + {binder.maxIdConvoy}
      ensures fresh(devicePr) && devicePr.macNodeId == mac
      ensures devicePr.Value() == Device(MasterDevice, mac, mac, binder.maxIdConvoy)
      ensures binder.nextHop == old(binder.nextHop)[mac := mac]
    {
      var id := binder.maxIdConvoy + 1;
      binder.RegisterConvoy(id);
      CreateNewCluster(id, mac);
    }

    /** With the gateway device or with the primary device. */
    method JoinNewCluster(convoy: int, cluster: int, gateway: bool)
      requires Valid()
      modifies this`role, this`initialized, if gateway then deviceGw else devicePr, binder`nextHop
      ensures Valid() && initialized == (old(initialized) || !gateway)
      ensures role == (if gateway || old(role) == Gateway then Gateway else Member)
      ensures var device := if gateway then deviceGw else devicePr;
              && (device.kind != MasterDevice ==>
                    && device.Value() == Device(device.kind, device.macNodeId, cluster, convoy)
                    && binder.nextHop == old(binder.nextHop)[device.macNodeId := cluster])
              && (device.kind == MasterDevice ==>
                  device.Value() == old(device.Value()) && binder.nextHop == old(binder.nextHop))
    {
      if gateway {
        deviceGw.JoinNewCluster(convoy, cluster, binder);
        role := Gateway;
      } else {
        devicePr.JoinNewCluster(convoy, cluster, binder);
        role := if role == Gateway then Gateway else Member;
        initialized := true;
      }
    }

    /** What the node has become after the scan. */
    twostate predicate Followed(choice: Option<Broadcast>, mac: int)
      reads this, binder, devicePr
    {
      && initialized
      && match choice
         case None =>
           && binder.maxIdConvoy == old(binder.maxIdConvoy) + 1 && binder.maxIdConvoy !in old(binder.convoys)
           && role == Manager && fresh(devicePr) && devicePr.macNodeId == mac
           && devicePr.Value() == Device(MasterDevice, mac, mac, binder.maxIdConvoy)
           && binder.nextHop == old(binder.nextHop)[mac := mac]
         case Some(b) =>
           && binder.convoys == old(binder.convoys) && binder.maxIdConvoy == old(binder.maxIdConvoy)
           && if b.fullCluster then
                && role == Manager && fresh(devicePr) && devicePr.macNodeId == mac
                && devicePr.Value() == Device(MasterDevice, mac, mac, b.convoy)
                && binder.nextHop == old(binder.nextHop)[mac := mac]
              else
                && devicePr == old(devicePr) && role == (if old(role) == Gateway then Gateway else Member)
                && (devicePr.kind != MasterDevice ==>
                      && devicePr.Value() == Device(devicePr.kind, devicePr.macNodeId, b.cluster, b.convoy)
                      && binder.nextHop == old(binder.nextHop)[devicePr.macNodeId := b.cluster])
    }

    /** mac is the node id that a new master device would get. */
    method HandleBroadcastScanEvent(mac: int) returns (choice: Option<Broadcast>)
      requires Valid()
      modifies this`devicePr, this`role, this`initialized, devicePr, binder
      ensures Valid() && BestOf(choice, Table(received), direction, minRssi) && Followed(choice, mac)
    {
      choice := Choose(broadcastsReceived, direction, minRssi);
      match choice
      case None => CreateNewConvoy(mac);
      case Some(b) =>
        if !b.fullCluster { JoinNewCluster(b.convoy, b.cluster, false); } else { CreateNewCluster(b.convoy, mac); }
    }

    // ---- in the network -------------------------------------------------------------------------

    /** The two devices: of the right kinds, a master exactly for a manager. */
    ghost predicate Shape()
      reads this, devicePr, deviceGw
    {
      && devicePr != deviceGw && deviceGw.kind == GatewayDevice
      && devicePr.kind == (if role == Manager then MasterDevice else MemberDevice)
      && (devicePr.address == 0 || devicePr.address == devicePr.macNodeId)
      && (role == Manager ==> devicePr.address == devicePr.manager)
      && (deviceGw.address == 0 || deviceGw.address == deviceGw.macNodeId)
    }

    ghost function StationOf(): Station
      reads this
    {
      Station(role, devicePr.macNodeId, deviceGw.macNodeId)
    }

    /** This node as station i of a network. */
    ghost predicate IsNode(net: Net, i: nat)
      reads this, binder, devicePr, deviceGw
    {
      && i < |net.nodes| && net.nodes[i] == Node(Some(devicePr.Value()), Some(deviceGw.Value()))
      && net.nextHop == binder.nextHop
    }

    /** What the broadcast scan needs to be legal. */
    ghost predicate HeardMasters(net: Net)
      reads this
    {
      forall b :: b in received ==> b.cluster != 0 && HasMaster(net, b.cluster)
    }

    /** The broadcast scan, a network event: a node whose primary device is no master becomes what
        the event says. The event is legal if the node has heard masters only. */
    method ScanInNetwork(mac: int, ghost net: Net, ghost i: nat) returns (choice: Option<Broadcast>, ghost e: Event)
      requires Valid() && IsNode(net, i) && Shape() && role != Manager
      modifies this`devicePr, this`role, this`initialized, devicePr, binder
      ensures Valid() && Shape() && BestOf(choice, Table(received), direction, minRssi)
      ensures e == ScanEvent(choice, i, mac, old(devicePr.macNodeId), old(binder.maxIdConvoy))
      ensures IsNode(Apply(net, e), i)
      ensures if e.Found? then fresh(devicePr) && devicePr.macNodeId == mac else devicePr == old(devicePr)
      ensures HeardMasters(net) && Free(net, i, old(devicePr.macNodeId)) && Free(net, i, mac) ==> Legal(net, e)
    {
      ghost var own, max := devicePr.macNodeId, binder.maxIdConvoy;
      ChosenWasReceived(received);
      choice := HandleBroadcastScanEvent(mac);
      e := ScanEvent(choice, i, mac, own, max);
    }

    /** A join with the gateway device, a network event. */
    method JoinGatewayInNetwork(convoy: int, cluster: int, ghost net: Net, ghost i: nat)
      requires Valid() && IsNode(net, i) && deviceGw.kind == GatewayDevice && devicePr != deviceGw
      modifies this`role, this`initialized, deviceGw, binder`nextHop
      ensures Valid() && IsNode(Apply(net, JoinGateway(i, deviceGw.macNodeId, cluster, convoy)), i) && role == Gateway
      ensures deviceGw.address == deviceGw.macNodeId
    {
      JoinNewCluster(convoy, cluster, true);
    }

    // ---- orchestration commands ---------------------------------------------------------------------

    /** Lines 465-466 and 473-474. */
    method DetachInNetwork(ghost net: Net, ghost i: nat)
      requires Valid() && IsNode(net, i) && devicePr != deviceGw
      modifies devicePr, deviceGw
      ensures Valid() && IsNode(Apply(net, Detach(i)), i)
      ensures devicePr.address == 0 && deviceGw.address == 0
    {
      devicePr.DetachFromCluster();
      deviceGw.DetachFromCluster();
    }

    /** Lines 499-510: a manager gets a new member device, then the primary device joins. */
    method RejoinInNetwork(msg: Command, renew: bool, mac: int, ghost net: Net, ghost i: nat)
      requires Valid() && IsNode(net, i) && devicePr != deviceGw && (renew || devicePr.kind == MemberDevice)
      modifies this`devicePr, this`role, this`initialized, devicePr, binder
      ensures Valid() && role == (if old(role) == Gateway then Gateway else Member) && initialized
      ensures binder.convoys == old(binder.convoys) && binder.maxIdConvoy == old(binder.maxIdConvoy)
      ensures binder.clusters == if renew && old(devicePr.kind) == MasterDevice
                                 then old(binder.clusters - {(devicePr.convoy, devicePr.manager)})
                                 else old(binder.clusters)
      ensures if renew then fresh(devicePr) && devicePr.macNodeId == mac else devicePr == old(devicePr)
      ensures IsNode(Apply(net, Join(i, if renew then mac else old(devicePr.macNodeId), msg.cluster, msg.convoy)), i)
      ensures devicePr.kind == MemberDevice && devicePr.address == devicePr.macNodeId
    {
      if renew {
        binder.clusters := binder.clusters - OwnCluster();
        var hop := binder.RegisterDevice(MemberDevice, mac);
        devicePr := new ClusterDevice.ConfigureAndStart(MemberDevice, msg.convoy, mac, hop);
      }
      JoinNewCluster(msg.convoy, msg.cluster, false);
    }

    /** Whether the primary device was replaced, by a device with one of the new node ids. */
    twostate predicate PrimaryFrom(macs: set<int>)
      reads this
    {
      devicePr == old(devicePr) || (fresh(devicePr) && devicePr.macNodeId in macs)
    }

    /** changeClusterMembership. */
    method ChangeClusterMembership(msg: Command, mac: int, ghost net: Net, ghost i: nat)
      requires Valid() && IsNode(net, i) && Shape()
      modifies this`devicePr, this`role, this`initialized, devicePr, deviceGw, binder
      ensures Valid() && Shape() && PrimaryFrom({mac})
      ensures msg.role == Undefined ==> role == old(role) && initialized == old(initialized)
      ensures msg.role == Manager ==> role == Manager && initialized
      ensures msg.role == Gateway ==> role == Gateway && initialized
      ensures msg.role == Member ==> role == (if old(role) == Gateway then Gateway else Member) && initialized
      ensures binder.convoys == old(binder.convoys) && binder.maxIdConvoy == old(binder.maxIdConvoy)
      ensures InNet(net, ChangeEvents(i, old(StationOf()), msg, mac))
      ensures IsNode(After(net, ChangeEvents(i, old(StationOf()), msg, mac)), i)
    {
      var previous := role;
      match msg.role
      case Undefined =>
      case Manager =>
        CreateNewCluster(msg.convoy, mac);
        AfterCons(net, Found(i, mac, msg.convoy), []);
      case Member =>
        RejoinInNetwork(msg, previous == Manager, mac, net, i);
        AfterCons(net, PrimaryJoin(i, old(StationOf()), msg, mac), []);
      case Gateway =>
        BothRejoinInNetwork(msg, previous == Manager, mac, net, i);
    }

    /** Lines 493-510 for a gateway. */
    method BothRejoinInNetwork(msg: Command, renew: bool, mac: int, ghost net: Net, ghost i: nat)
      requires Valid() && IsNode(net, i) && Shape() && renew == (role == Manager)
      modifies this`devicePr, this`role, this`initialized, devicePr, deviceGw, binder
      ensures Valid() && Shape() && PrimaryFrom({mac}) && role == Gateway && initialized
      ensures binder.convoys == old(binder.convoys) && binder.maxIdConvoy == old(binder.maxIdConvoy)
      ensures var e := JoinGateway(i, deviceGw.macNodeId, msg.clusterGw, msg.convoy);
              var e' := PrimaryJoin(i, old(StationOf()), msg, mac);
              InNet(net, [e, e']) && IsNode(After(net, [e, e']), i)
    {
      ghost var e := JoinGateway(i, deviceGw.macNodeId, msg.clusterGw, msg.convoy);
      ghost var e' := PrimaryJoin(i, StationOf(), msg, mac);
      JoinGatewayInNetwork(msg.convoy, msg.clusterGw, net, i);
      RejoinInNetwork(msg, renew, mac, Apply(net, e), i);
      AfterCons(net, e, [e']);
      AfterCons(Apply(net, e), e', []);
      assert [e, e'] == [e] + [e'];
    }

    /** Lines 467-470. */
    method ChangeConvoy(msg: Command, macs: Ids, ghost net: Net, ghost i: nat)
      requires Valid() && IsNode(net, i) && Shape()
      modifies this`devicePr, this`role, this`initialized, devicePr, deviceGw, binder
      ensures Valid() && Shape() && PrimaryFrom({macs.0, macs.1})
      ensures var before := if msg.convoy > old(binder.maxIdConvoy) then Manager else old(role);
              && (msg.role == Undefined ==> role == before)
              && (msg.role == Manager ==> role == Manager)
              && (msg.role == Gateway ==> role == Gateway)
              && (msg.role == Member ==> role == if before == Gateway then Gateway else Member)
      ensures binder.convoys - old(binder.convoys) ==
              if msg.convoy > old(binder.maxIdConvoy) then {old(binder.maxIdConvoy) + 1} else {}
      ensures var events := NewConvoyEvents(i, old(StationOf()), msg, old(binder.maxIdConvoy), macs);
              InNet(net, events) && IsNode(After(net, events), i)
    {
      if msg.convoy > binder.maxIdConvoy {
        ghost var found, rest :=
          Found(i, macs.0, binder.maxIdConvoy + 1),
          ChangeEvents(i, Station(Manager, macs.0, deviceGw.macNodeId), msg, macs.1);
        CreateNewConvoy(macs.0);
        ChangeClusterMembership(msg, macs.1, Apply(net, found), i);
        AfterCons(net, found, rest);
      } else {
        ChangeClusterMembership(msg, macs.1, net, i);
      }
    }

    /** handleOrchestrationMessage; macs are the node ids that new devices would get. */
    method HandleOrchestrationMessage(msg: Command, macs: Ids, ghost net: Net, ghost i: nat)
      returns (ghost events: seq<Event>)
      requires Valid() && IsNode(net, i) && Shape()
      modifies this`devicePr, this`role, this`initialized, devicePr, deviceGw, binder
      ensures Valid() && Shape() && PrimaryFrom({macs.0, macs.1})
      ensures var founds := msg.convoy != old(devicePr.convoy) && msg.convoy > old(binder.maxIdConvoy);
              var before := if founds then Manager else old(role);
              && (msg.role == Undefined ==> role == before)
              && (msg.role == Manager ==> role == Manager)
              && (msg.role == Gateway ==> role == Gateway)
              && (msg.role == Member ==> role == if before == Gateway then Gateway else Member)
              && binder.convoys - old(binder.convoys) == if founds then {old(binder.maxIdConvoy) + 1} else {}
      ensures events == CommandEvents(i, old(devicePr.Value()), old(deviceGw.Value()), old(StationOf()), msg,
                                      old(binder.maxIdConvoy), macs)
      ensures InNet(net, events) && IsNode(After(net, events), i)
    {
      ghost var st := StationOf();
      events := CommandEvents(i, devicePr.Value(), deviceGw.Value(), st, msg, binder.maxIdConvoy, macs);
      if msg.convoy != devicePr.convoy {
        DetachInNetwork(net, i);
        ChangeConvoy(msg, macs, Apply(net, Detach(i)), i);
        AfterCons(net, Detach(i), NewConvoyEvents(i, st, msg, old(binder.maxIdConvoy), macs));
      } else if msg.role != role {
        DetachInNetwork(net, i);
        ChangeClusterMembership(msg, macs.1, Apply(net, Detach(i)), i);
        AfterCons(net, Detach(i), ChangeEvents(i, st, msg, macs.1));
      } else if msg.cluster != devicePr.manager || msg.clusterGw != deviceGw.manager {
        ChangeClusterMembership(msg, macs.1, net, i);
      }
    }
  }

  /** A node follows only what it has received. */
  lemma ChosenWasReceived(received: seq<Broadcast>)
    ensures forall b :: b in Table(received) ==> b in received
  {
    TableIsLatest(received);
  }

  /** The scan of station i, seen from the network. */
  function ScanEvent(choice: Option<Broadcast>, i: nat, mac: int, own: int, maxIdConvoy: int): Event {
    match choice
    case None => Found(i, mac, maxIdConvoy + 1)
    case Some(b) => if b.fullCluster then Found(i, mac, b.convoy) else Join(i, own, b.cluster, b.convoy)
  }
}
