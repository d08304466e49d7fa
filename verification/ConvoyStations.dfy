/**
 Several stations and their binder: every run of broadcasts, scans and orchestration commands,
 with the network that the stations form.
 */
module ConvoyStations {
  import opened Options
  import opened ConvoyTypes
  import opened ConvoyRouting
  import opened ConvoyEvents
  import opened ConvoyCommands
  import opened MembershipControls

  /** A station hears the broadcast of another one's master device, scans what it has heard, or
      obeys an orchestration message. */
  datatype Op =
    | Hear(node: nat, from: nat, fullConvoy: bool, fullCluster: bool, direction: int, rssi: real)
    | Scan(node: nat)
    | Obey(node: nat, msg: Command)

  /** The node ids that the binder gives to the first devices. */
  function StartIds(n: nat): (ids: seq<Ids>)
    ensures |ids| == n
  {
    if n == 0 then [] else StartIds(n - 1) + [(2 * n - 1, 2 * n)]
  }

  lemma {:induction false} StartIdAt(n: nat, i: nat)
    requires i < n
    ensures StartIds(n)[i] == (2 * i + 1, 2 * i + 2)
  {
    if i < n - 1 { StartIdAt(n - 1, i); }
  }

  lemma StartNext(n: nat)
    ensures StartNet(StartIds(n + 1)) == Started(StartNet(StartIds(n)), (2 * n + 1, 2 * n + 2))
  {
    assert StartIds(n + 1)[..n] == StartIds(n);
  }

  lemma StartIdsDistinct(n: nat)
    ensures DistinctIds(StartIds(n))
  {
    forall i | 0 <= i < n ensures StartIds(n)[i] == (2 * i + 1, 2 * i + 2) { StartIdAt(n, i); }
  }

  class Stations {
    const binder: Binder
    var controls: seq<MembershipControl>
    /** The next node id of the binder. */
    var next: int
    /** The network that the stations form. */
    ghost var net: Net
    /** No station has obeyed a command yet. */
    ghost var uncommanded: bool
    /** The binder, the stations and their devices. */
    ghost var Repr: set<object>

    ghost predicate Valid()
      reads this, Repr
    {
      && this !in Repr && binder in Repr && binder.Valid()
      && |net.nodes| == |controls| && next > 0 && net.nextHop == binder.nextHop
      && (forall i :: 0 <= i < |controls| ==> StationOk(i))
      && (forall i, j :: 0 <= i < |controls| && 0 <= j < |controls| && i != j ==> Distinct(i, j))
    }

    ghost predicate StationOk(i: nat)
      requires i < |controls|
      reads this, Repr
    {
      var c := controls[i];
      && c in Repr && c.devicePr in Repr && c.deviceGw in Repr && binder in Repr
      && c.binder == binder && c.Valid() && c.Shape() && c.IsNode(net, i)
      && 0 < c.devicePr.macNodeId < next && 0 < c.deviceGw.macNodeId < next
      && c.devicePr.macNodeId != c.deviceGw.macNodeId
    }

    ghost predicate Distinct(i: nat, j: nat)
      requires i < |controls| && j < |controls|
      reads this, Repr
    {
      var c, d := controls[i], controls[j];
      && c in Repr && d in Repr && c != d
      && c.devicePr !in {d.devicePr, d.deviceGw} && c.deviceGw !in {d.devicePr, d.deviceGw}
      && c.devicePr.macNodeId !in {d.devicePr.macNodeId, d.deviceGw.macNodeId}
      && c.deviceGw.macNodeId !in {d.devicePr.macNodeId, d.deviceGw.macNodeId}
    }

    constructor ()
      ensures Valid() && fresh(Repr) && controls == [] && next == 1 && net == StartNet([]) && uncommanded
      ensures NothingHeard()
    {
      binder := new Binder();
      controls, next, net, uncommanded, Repr := [], 1, StartNet([]), true, {};
      new;
      Repr := {binder};
    }

    ghost predicate NothingHeard()
      requires Valid()
      reads this, Repr
    {
      forall i :: 0 <= i < |controls| ==> StationOk(i) && controls[i].received == []
    }

    method AddStation(direction: int, minRssi: real)
      requires Valid() && NothingHeard()
      modifies this, binder`nextHop
      ensures Valid() && net == Started(old(net), (old(next), old(next) + 1)) && next == old(next) + 2
      ensures |controls| == |old(controls)| + 1 && NothingHeard() && uncommanded == old(uncommanded)
      ensures fresh(Repr - old(Repr))
    {
      var c := new MembershipControl(direction, minRssi, binder, next, next + 1);
      controls := controls + [c];
      net := Started(net, (next, next + 1));
      next := next + 2;
      Repr := Repr + {c, c.devicePr, c.deviceGw};
      Grown(c);
    }

    /** A new station with new node ids, the others and their devices as before. */
    twostate lemma Grown(new c: MembershipControl)
      requires old(Valid()) && old(NothingHeard()) && controls == old(controls) + [c] && next == old(next) + 2
      requires old(Repr) <= Repr && this !in Repr && binder in Repr && binder.Valid() && net.nextHop == binder.nextHop
      requires |net.nodes| == |controls| && forall j :: 0 <= j < |old(controls)| ==>
                 && unchanged(old(controls)[j])
                 && unchanged(old(controls)[j].devicePr) && unchanged(old(controls)[j].deviceGw)
                 && net.nodes[j] == old(net.nodes[j])
      requires fresh(c) && fresh(c.devicePr) && fresh(c.deviceGw) && c.received == [] && StationOk(|old(controls)|)
      requires old(next) <= c.devicePr.macNodeId && old(next) <= c.deviceGw.macNodeId
      ensures Valid() && NothingHeard()
    {
      var n := |old(controls)|;
      forall i | 0 <= i < |controls| ensures StationOk(i) && controls[i].received == [] {
        if i < n { assert controls[i] == old(controls[i]) && old(StationOk(i)); }
      }
      forall i, j | 0 <= i < |controls| && 0 <= j < |controls| && i != j ensures Distinct(i, j) {
        if i < n { assert old(StationOk(i)); }
        if j < n { assert old(StationOk(j)); }
        if i < n && j < n { assert old(Distinct(i, j)); }
      }
    }

    /** All stations start, with the first node ids. */
    method StartAll(settings: seq<(int, real)>)
      requires Valid() && controls == [] && next == 1 && net == StartNet([]) && uncommanded && NothingHeard()
      modifies this, Repr
      ensures Valid() && fresh(Repr - old(Repr)) && |controls| == |settings| && net == StartNet(StartIds(|settings|))
      ensures uncommanded && NothingHeard()
    {
      var k := 0;
      while k < |settings|
        invariant 0 <= k <= |settings| && Valid() && |controls| == k && next == 2 * k + 1 && fresh(Repr - old(Repr))
        invariant net == StartNet(StartIds(k)) && uncommanded && NothingHeard()
      {
        StartNext(k);
        AddStation(settings[k].0, settings[k].1);
        k := k + 1;
      }
    }

    // ---- operations of one station -----------------------------------------------------------------

    /** Addresses are unique, since every device has its own node id. */
    lemma SaneNow()
      requires Valid()
      ensures Sane(net)
    {
      forall i, j, a | 0 <= i < |net.nodes| && 0 <= j < |net.nodes| && i != j && a != 0
        ensures !(Owns(net.nodes[i], a) && Owns(net.nodes[j], a))
      {
        assert StationOk(i) && StationOk(j) && Distinct(i, j);
      }
      forall i | 0 <= i < |net.nodes| ensures RightKinds(net.nodes[i]) { assert StationOk(i); }
    }

    /** Every station is ready for a command. */
    lemma FitsNow(i: nat)
      requires Valid() && i < |controls|
      ensures var c := controls[i];
              Fits(net, i, c.devicePr.Value(), c.deviceGw.Value(), c.StationOf(), (next, next + 1))
    {
      assert StationOk(i);
      forall j | 0 <= j < |net.nodes|
        ensures !Owns(net.nodes[j], next) && !Owns(net.nodes[j], next + 1)
        ensures j != i ==> !Owns(net.nodes[j], controls[i].devicePr.macNodeId)
        ensures j != i ==> !Owns(net.nodes[j], controls[i].deviceGw.macNodeId)
      {
        assert StationOk(j);
        if j != i { assert Distinct(i, j); }
      }
    }

    ghost predicate Others(i: nat, j: nat)
      requires i < |controls| && j < |controls|
      reads this, controls
    {
      var c, d := controls[i], controls[j];
      d != c && d.devicePr !in {c.devicePr, c.deviceGw} && d.deviceGw !in {c.devicePr, c.deviceGw}
    }

    lemma OthersApart(i: nat)
      requires Valid() && i < |controls|
      ensures forall j :: 0 <= j < |controls| && j != i ==> Others(i, j)
    {
      forall j | 0 <= j < |controls| && j != i ensures Others(i, j) { assert Distinct(j, i); }
    }

    /** Station i has changed, the others and their devices have not. */
    twostate lemma OthersStay(i: nat)
      requires old(Valid()) && i < |old(controls)| && controls == old(controls) && next >= old(next)
      requires old(Repr) <= Repr && this !in Repr && binder in Repr && binder.Valid() && net.nextHop == binder.nextHop
      requires |net.nodes| == |old(net.nodes)|
      requires forall j :: 0 <= j < |controls| && j != i ==>
                 && unchanged(controls[j]) && unchanged(controls[j].devicePr) && unchanged(controls[j].deviceGw)
                 && net.nodes[j] == old(net.nodes[j])
      requires StationOk(i) && controls[i].deviceGw == old(controls[i].deviceGw)
      requires controls[i].devicePr == old(controls[i].devicePr) ||
               (fresh(controls[i].devicePr) && old(next) <= controls[i].devicePr.macNodeId)
      ensures Valid()
    {
      forall j | 0 <= j < |controls| ensures StationOk(j) {
        if j != i { assert old(StationOk(j)); }
      }
      forall j, k | 0 <= j < |controls| && 0 <= k < |controls| && j != k ensures Distinct(j, k) {
        assert old(Distinct(j, k)) && old(StationOk(j)) && old(StationOk(k));
      }
    }

    /** While nobody has obeyed a command, what the stations have heard of are masters. */
    ghost predicate Lawful()
      requires Valid()
      reads this, Repr
    {
      uncommanded ==>
        Consistent(net) && forall i :: 0 <= i < |controls| ==> StationOk(i) && controls[i].HeardMasters(net)
    }

    /** Station i hears the master of another station. */
    method HearOne(i: nat, from: nat, fullConvoy: bool, fullCluster: bool, direction: int, rssi: real)
      requires Valid() && Lawful() && i < |controls| && from < |controls|
      modifies controls[i]
      ensures Valid() && Lawful()
    {
      assert StationOk(i) && StationOk(from);
      var master := controls[from].devicePr;
      if master.kind == MasterDevice && master.manager != 0 {
        assert IsMaster(net.nodes[from], master.manager);
        var b := Broadcast(master.convoy, master.manager, fullConvoy, fullCluster, direction, rssi);
        controls[i].ReceiveBroadcast(b);
        forall j | 0 <= j < |controls| && j != i ensures controls[j] != controls[i] { assert old(Distinct(j, i)); }
        forall j | 0 <= j < |controls| ensures StationOk(j) { assert old(StationOk(j)); }
        forall j, k | 0 <= j < |controls| && 0 <= k < |controls| && j != k ensures Distinct(j, k) {
          assert old(Distinct(j, k));
        }
      }
    }

    /** Station i scans what it has heard, unless it is a manager already. */
    method ScanOne(i: nat)
      requires Valid() && Lawful() && i < |controls|
      modifies this, Repr
      ensures Valid() && Lawful() && fresh(Repr - old(Repr)) && controls == old(controls)
      ensures uncommanded == old(uncommanded)
    {
      assert StationOk(i);
      if controls[i].role != Manager {
        ghost var e := ScanAt(i);
        if uncommanded {
          EventKeeps(old(net), e);
          forall j | 0 <= j < |controls| ensures controls[j].HeardMasters(net) {
            assert old(controls[j].HeardMasters(net));
          }
        }
      }
    }

    method ScanAt(i: nat) returns (ghost e: Event)
      requires Valid() && i < |controls| && StationOk(i) && controls[i].role != Manager
      modifies this, Repr
      ensures Valid() && fresh(Repr - old(Repr)) && controls == old(controls) && uncommanded == old(uncommanded)
      ensures e.node < |old(net).nodes| && net == Apply(old(net), e)
      ensures old(controls[i].HeardMasters(net)) ==> Legal(old(net), e)
      ensures forall j :: 0 <= j < |controls| ==> controls[j].received == old(controls[j].received)
    {
      FitsNow(i);
      OthersApart(i);
      ghost var choice;
      choice, e := controls[i].ScanInNetwork(next, net, i);
      net := Apply(net, e);
      next := next + 1;
      Repr := Repr + {controls[i].devicePr};
      forall j | 0 <= j < |controls| && j != i
        ensures unchanged(controls[j]) && unchanged(controls[j].devicePr) && unchanged(controls[j].deviceGw)
      {
        assert old(Others(i, j));
      }
      OthersStay(i);
    }

    /** The events of a command that station i would get now. */
    ghost function EventsOf(i: nat, msg: Command): seq<Event>
      requires Valid() && i < |controls| && StationOk(i)
      reads this, Repr
    {
      var c := controls[i];
      CommandEvents(i, c.devicePr.Value(), c.deviceGw.Value(), c.StationOf(), msg, binder.maxIdConvoy, (next, next + 1))
    }

    lemma CommandStays(i: nat, msg: Command, events: seq<Event>)
      requires Valid() && i < |controls| && StationOk(i) && events == EventsOf(i, msg)
      ensures InNet(net, events) && OnlyAt(net, After(net, events), i)
    {
      var c := controls[i];
      SaneNow();
      FitsNow(i);
      var pr, gw, st := c.devicePr.Value(), c.deviceGw.Value(), c.StationOf();
      CommandOnlyAt(net, i, pr, gw, st, msg, binder.maxIdConvoy, (next, next + 1));
    }

    method CommandAt(i: nat, msg: Command) returns (ghost after: Net)
      requires Valid() && i < |controls| && StationOk(i)
      requires InNet(net, EventsOf(i, msg)) && OnlyAt(net, After(net, EventsOf(i, msg)), i)
      modifies controls[i], controls[i].devicePr, controls[i].deviceGw, binder
      ensures after == old(After(net, EventsOf(i, msg))) && OnlyAt(net, after, i)
      ensures var c := controls[i];
              && c.Valid() && c.Shape() && c.IsNode(after, i) && c.deviceGw == old(c.deviceGw)
              && (c.devicePr == old(c.devicePr) || (fresh(c.devicePr) && c.devicePr.macNodeId in {next, next + 1}))
    {
      ghost var events := controls[i].HandleOrchestrationMessage(msg, (next, next + 1), net, i);
      after := After(net, events);
    }

    /** Station i obeys an orchestration message. */
    method ObeyOne(i: nat, msg: Command)
      requires Valid() && Lawful() && i < |controls|
      modifies this, Repr
      ensures Valid() && Lawful() && fresh(Repr - old(Repr)) && controls == old(controls)
    {
      assert StationOk(i);
      CommandStays(i, msg, EventsOf(i, msg));
      OthersApart(i);
      ghost var after := CommandAt(i, msg);
      net, uncommanded := after, false;
      next := next + 2;
      Repr := Repr + {controls[i].devicePr};
      forall j | 0 <= j < |controls| && j != i
        ensures unchanged(controls[j]) && unchanged(controls[j].devicePr) && unchanged(controls[j].deviceGw)
      {
        assert old(Others(i, j));
      }
      OthersStay(i);
    }

    method Step(op: Op)
      requires Valid() && Lawful() && OpOk(op, |controls|)
      modifies this, Repr
      ensures Valid() && Lawful() && fresh(Repr - old(Repr)) && controls == old(controls)
      ensures old(uncommanded) && !op.Obey? ==> uncommanded
    {
      match op
      case Hear(i, from, fullConvoy, fullCluster, direction, rssi) =>
        assert StationOk(i);
        HearOne(i, from, fullConvoy, fullCluster, direction, rssi);
      case Scan(i) => ScanOne(i);
      case Obey(i, msg) => ObeyOne(i, msg);
    }
  }

  predicate OpOk(op: Op, n: nat) {
    op.node < n && (op.Hear? ==> op.from < n)
  }

  /** Stations start, then hear, scan and obey in any order. Addresses stay unique, so the fate of
      every packet is known; without commands, every packet with a route arrives in two hops. */
  method Run(settings: seq<(int, real)>, ops: seq<Op>) returns (stations: Stations)
    requires forall k :: 0 <= k < |ops| ==> OpOk(ops[k], |settings|)
    ensures fresh(stations) && stations.Valid() && |stations.controls| == |settings| && Sane(stations.net)
    ensures (forall k :: 0 <= k < |ops| ==> !ops[k].Obey?) ==>
              && Consistent(stations.net)
              && forall s, dst, t, limit :: limit >= 2 && Routed(stations.net, s, dst, t) ==>
                   var r := Travel(stations.net, s, dst, limit); r.Delivered? && r.node == t && r.hops <= 2
  {
    stations := new Stations();
    stations.StartAll(settings);
    StartIdsDistinct(|settings|);
    StartIsConsistent(StartIds(|settings|));
    var k := 0;
    while k < |ops|
      invariant 0 <= k <= |ops| && fresh(stations) && fresh(stations.Repr) && stations.Valid() && stations.Lawful()
      invariant |stations.controls| == |settings|
      invariant (forall j :: 0 <= j < k ==> !ops[j].Obey?) ==> stations.uncommanded
    {
      stations.Step(ops[k]);
      k := k + 1;
    }
    stations.SaneNow();
    if forall j :: 0 <= j < |ops| ==> !ops[j].Obey? {
      forall s, dst, t, limit | limit >= 2 && Routed(stations.net, s, dst, t)
        ensures var r := Travel(stations.net, s, dst, limit); r.Delivered? && r.node == t && r.hops <= 2
      {
        DeliveredInTwo(stations.net, s, dst, t, limit);
      }
    }
  }
}
