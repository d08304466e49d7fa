/**
 convoy_architecture::DtwinStore: the digital twin's objects in parallel maps. Messages that
 are too old on arrival are refused, objects that have become too old are erased, and every
 read inserts a default value where there is none.
 */
module DtwinStores {
  import opened ConvoyTypes
  import opened Widths

  /** An object identifier or a type name, compared as a whole. */
  datatype Name = Name(text: string)

  datatype Tracked = Tracked(id: Name, kind: Name, address: int, x: real, y: real, z: real, heading: real)

  datatype ObjectList = ObjectList(timestamp: nat, objects: seq<Tracked>)

  /** What the store knows of an object, and what a read message carries. */
  datatype Observation = Observation(timestamp: nat, x: real, y: real, z: real, heading: real)

  datatype Entry = Entry(kind: Name, address: int, seen: Observation)

  function Seen(o: Tracked, timestamp: nat): Observation {
    Observation(timestamp, o.x, o.y, o.z, o.heading)
  }

  // ---- the abstract store: for each object the newest observation accepted ------------------

  type Latest = map<Name, Observation>

  predicate Newer(latest: Latest, id: Name, timestamp: nat) {
    id !in latest || latest[id].timestamp <= timestamp
  }

  function MergeOne(latest: Latest, o: Tracked, timestamp: nat): (r: Latest) {
    if Newer(latest, o.id, timestamp) then latest[o.id := Seen(o, timestamp)] else latest
  }

  function Merge(latest: Latest, objects: seq<Tracked>, timestamp: nat): (r: Latest) {
    if objects == [] then latest
    else
      var k := |objects| - 1;
      MergeOne(Merge(latest, objects[..k], timestamp), objects[k], timestamp)
  }

  /** Merging never replaces a newer observation, and covers every object of the message. */
  lemma {:induction false} MergeMonotone(latest: Latest, objects: seq<Tracked>, timestamp: nat)
    ensures var r := Merge(latest, objects, timestamp);
            && (forall id :: id in latest ==> id in r && latest[id].timestamp <= r[id].timestamp)
            && (forall id :: id in latest && timestamp < latest[id].timestamp ==> r[id] == latest[id])
            && (forall k :: 0 <= k < |objects| ==> objects[k].id in r && timestamp <= r[objects[k].id].timestamp)
            && (forall id :: id in r ==> (id in latest && r[id] == latest[id]) || r[id].timestamp == timestamp)
  {
    if objects != [] {
      MergeMonotone(latest, objects[..|objects| - 1], timestamp);
      forall k | 0 <= k < |objects| - 1 ensures objects[k].id in Merge(latest, objects[..|objects| - 1], timestamp) {
        assert objects[..|objects| - 1][k] == objects[k];
      }
      forall k | 0 <= k < |objects|
        ensures objects[k].id in Merge(latest, objects, timestamp)
        ensures timestamp <= Merge(latest, objects, timestamp)[objects[k].id].timestamp
      {
        if k < |objects| - 1 { assert objects[..|objects| - 1][k] == objects[k]; }
      }
    }
  }

  lemma AgeOfPast(now: nat, timestamp: nat)
    requires timestamp <= now < B64
    ensures Age(now, timestamp) == now - timestamp
  {}

  /** The gate of line 108 and the expiry test of line 81 are complementary: what passes the
      gate is newer than everything already expired, and what it is older than is not expired. */
  lemma GateComplementsExpiry(maxAge: nat, now: nat, timestamp: nat, stored: nat)
    requires maxAge <= B63 && now < B63 && timestamp < B63 && stored <= now
    requires Age(now, timestamp) < maxAge
    ensures timestamp <= now
    ensures Age(now, stored) >= maxAge ==> stored < timestamp
    ensures timestamp <= stored ==> Age(now, stored) < maxAge
  {
    FutureIsOld(now, timestamp);
    AgeOfPast(now, stored);
    AgeOfPast(now, if timestamp <= now then timestamp else now);
  }

  lemma FutureIsOld(now: nat, timestamp: nat)
    requires now < B63 && timestamp < B63
    ensures timestamp > now ==> Age(now, timestamp) >= B63
  {}

  // ---- default insertion ----------------------------------------------------------------------

  /** m after reading it at id with operator[]. */
  function Touched<V>(m: map<Name, V>, id: Name, default: V): (r: map<Name, V>)
    ensures id in r && (id in m ==> r == m) && (id !in m ==> r[id] == default)
  {
    if id in m then m else m[id := default]
  }

  // ---- the maps and what is known of them ----------------------------------------------------

  /** The store's set and maps. */
  datatype Twin = Twin(
    ids: set<Name>,
    kinds: map<Name, Name>,
    addresses: map<Name, int>,
    xs: map<Name, real>,
    ys: map<Name, real>,
    zs: map<Name, real>,
    headings: map<Name, real>,
    stamps: map<Name, nat>)

  /** The object's maps hold this observation. */
  ghost predicate Stores(t: Twin, id: Name, seen: Observation) {
    && id in t.ids
    && id in t.stamps && t.stamps[id] == seen.timestamp
    && id in t.xs && t.xs[id] == seen.x
    && id in t.ys && t.ys[id] == seen.y
    && id in t.zs && t.zs[id] == seen.z
    && id in t.headings && t.headings[id] == seen.heading
  }

  function Get<V>(m: map<Name, V>, id: Name, default: V): V {
    if id in m then m[id] else default
  }

  /** What reading the maps at an identifier shows, defaults included. */
  function SeenIn(t: Twin, id: Name): (seen: Observation) {
    Observation(Get(t.stamps, id, 0), Get(t.xs, id, 0.0), Get(t.ys, id, 0.0), Get(t.zs, id, 0.0),
        Get(t.headings, id, 0.0))
  }

  /** The type and the address that reading the maps shows. */
  function LabelIn(t: Twin, id: Name): (tag: (Name, int)) {
    (Get(t.kinds, id, Name("")), Get(t.addresses, id, 0))
  }

  const NOTHING: Observation := Observation(0, 0.0, 0.0, 0.0, 0.0)

  /** The maps hold an object's newest accepted observation, all of it, or show nothing of it. */
  ghost predicate WholeOrNothing(t: Twin, latest: Latest, id: Name) {
    (id in latest && Stores(t, id, latest[id])) || SeenIn(t, id) == NOTHING
  }

  /** Every object whose newest accepted observation is not too old is stored with it, and of
      every other object nothing else is left. */
  ghost predicate TwinOk(t: Twin, latest: Latest, clock: nat, maxAge: nat) {
    && maxAge <= B63 && clock < B63
    && (forall id :: id in latest ==> latest[id].timestamp <= clock)
    && (forall id :: id in latest && clock - latest[id].timestamp < maxAge ==> Stores(t, id, latest[id]))
    && (forall id :: WholeOrNothing(t, latest, id))
  }

  lemma WaitKeeps(t: Twin, latest: Latest, clock: nat, later: nat, maxAge: nat)
    requires TwinOk(t, latest, clock, maxAge) && clock <= later < B63
    ensures TwinOk(t, latest, later, maxAge)
  {}

  /** The test of lines 114-119: the object is known and has a newer stamp. */
  predicate Refuses(t: Twin, id: Name, timestamp: nat) {
    id in t.ids && id in t.stamps && timestamp < t.stamps[id]
  }

  /** It refuses exactly what is older than the newest observation accepted, expired or not. */
  lemma RefusesOlder(t: Twin, latest: Latest, clock: nat, maxAge: nat, id: Name, timestamp: nat)
    requires TwinOk(t, latest, clock, maxAge) && timestamp < B63 && Age(clock, timestamp) < maxAge
    ensures Refuses(t, id, timestamp) <==> !Newer(latest, id, timestamp)
  {
    assert WholeOrNothing(t, latest, id);
    if id in latest {
      GateComplementsExpiry(maxAge, clock, timestamp, latest[id].timestamp);
      AgeOfPast(clock, latest[id].timestamp);
    }
  }

  /** Lines 123-133. */
  function Put(t: Twin, o: Tracked, timestamp: nat): (r: Twin) {
    t.(ids := t.ids + {o.id},
       kinds := if o.address >= 0 then t.kinds[o.id := o.kind] else t.kinds,
       addresses := if o.address >= 0 then t.addresses[o.id := o.address] else t.addresses,
       xs := t.xs[o.id := o.x], ys := t.ys[o.id := o.y], zs := t.zs[o.id := o.z],
       headings := t.headings[o.id := o.heading], stamps := t.stamps[o.id := timestamp])
  }

  /** A negative address keeps type and address as they were. */
  lemma PutLabels(t: Twin, o: Tracked, timestamp: nat, id: Name)
    ensures var tag := LabelIn(Put(t, o, timestamp), id);
            if id == o.id && o.address >= 0 then tag == (o.kind, o.address) else tag == LabelIn(t, id)
  {}

  /** A sweep clears the type of what it erases, not the address. */
  lemma SweepLabels(t: Twin, latest: Latest, now: nat, maxAge: nat, id: Name)
    requires TwinOk(t, latest, now, maxAge)
    ensures var tag, before := LabelIn(Erased(t, Expired(t, now, maxAge)), id), LabelIn(t, id);
            && tag.1 == before.1
            && tag.0 == if id in t.stamps && now - t.stamps[id] >= maxAge then Name("") else before.0
  {
    assert WholeOrNothing(t, latest, id);
    if id in t.stamps { AgeOfPast(now, t.stamps[id]); }
  }

  lemma PutKeeps(t: Twin, latest: Latest, clock: nat, maxAge: nat, o: Tracked, timestamp: nat)
    requires TwinOk(t, latest, clock, maxAge) && timestamp <= clock
    ensures TwinOk(Put(t, o, timestamp), latest[o.id := Seen(o, timestamp)], clock, maxAge)
  {
    var r, l := Put(t, o, timestamp), latest[o.id := Seen(o, timestamp)];
    forall id | id in l && clock - l[id].timestamp < maxAge ensures Stores(r, id, l[id]) {
      if id != o.id { assert Stores(t, id, latest[id]); }
    }
    forall id ensures WholeOrNothing(r, l, id) {
      assert WholeOrNothing(t, latest, id);
      PutIsWhole(t, latest, o, timestamp, id);
    }
  }

  lemma PutIsWhole(t: Twin, latest: Latest, o: Tracked, timestamp: nat, id: Name)
    requires WholeOrNothing(t, latest, id)
    ensures WholeOrNothing(Put(t, o, timestamp), latest[o.id := Seen(o, timestamp)], id)
  {}

  /** Lines 84-89, for all the dead. */
  function Erased(t: Twin, dead: set<Name>): (r: Twin) {
    t.(kinds := t.kinds - dead, xs := t.xs - dead, ys := t.ys - dead, zs := t.zs - dead,
       headings := t.headings - dead, stamps := t.stamps - dead)
  }

  lemma ErasedNext(t: Twin, dead: set<Name>, id: Name)
    ensures Erased(Erased(t, dead), {id}) == Erased(t, dead + {id})
  {}

  lemma ErasedNone(t: Twin)
    ensures Erased(t, {}) == t
  {}

  ghost function Expired(t: Twin, now: nat, maxAge: nat): (dead: set<Name>) {
    set id | id in t.stamps && Age(now, t.stamps[id]) >= maxAge
  }

  lemma EraseKeeps(t: Twin, latest: Latest, clock: nat, maxAge: nat)
    requires TwinOk(t, latest, clock, maxAge)
    ensures TwinOk(Erased(t, Expired(t, clock, maxAge)), latest, clock, maxAge)
  {
    var dead := Expired(t, clock, maxAge);
    forall id | id in latest && clock - latest[id].timestamp < maxAge ensures Stores(Erased(t, dead), id, latest[id]) {
      assert Stores(t, id, latest[id]);
      AgeOfPast(clock, latest[id].timestamp);
    }
    forall id ensures WholeOrNothing(Erased(t, dead), latest, id) {
      assert WholeOrNothing(t, latest, id);
      UnstampedIsErased(t, latest, dead, id);
    }
  }

  lemma UnstampedIsErased(t: Twin, latest: Latest, dead: set<Name>, id: Name)
    requires WholeOrNothing(t, latest, id)
    ensures WholeOrNothing(Erased(t, dead), latest, id)
  {}

  /** Reading every map at id. */
  function TouchedAll(t: Twin, id: Name): (r: Twin) {
    t.(kinds := Touched(t.kinds, id, Name("")), addresses := Touched(t.addresses, id, 0),
       xs := Touched(t.xs, id, 0.0), ys := Touched(t.ys, id, 0.0), zs := Touched(t.zs, id, 0.0),
       headings := Touched(t.headings, id, 0.0), stamps := Touched(t.stamps, id, 0))
  }

  /** Reading any of the maps keeps what is known. */
  lemma TouchKeeps(t: Twin, r: Twin, latest: Latest, clock: nat, maxAge: nat, id: Name)
    requires TwinOk(t, latest, clock, maxAge) && r.ids == t.ids
    requires r.xs == t.xs || r.xs == Touched(t.xs, id, 0.0)
    requires r.ys == t.ys || r.ys == Touched(t.ys, id, 0.0)
    requires r.zs == t.zs || r.zs == Touched(t.zs, id, 0.0)
    requires r.headings == t.headings || r.headings == Touched(t.headings, id, 0.0)
    requires r.stamps == t.stamps || r.stamps == Touched(t.stamps, id, 0)
    ensures TwinOk(r, latest, clock, maxAge)
  {
    forall i | i in latest && clock - latest[i].timestamp < maxAge ensures Stores(r, i, latest[i]) {
      assert Stores(t, i, latest[i]);
    }
    forall i ensures WholeOrNothing(r, latest, i) { assert WholeOrNothing(t, latest, i); }
  }

  lemma PutAfterTouch(t: Twin, mid: Twin, o: Tracked, timestamp: nat)
    requires mid == t || mid == t.(stamps := Touched(t.stamps, o.id, 0))
    ensures Put(mid, o, timestamp) == Put(t, o, timestamp)
  {}

  /** The entry of a read message. */
  ghost function EntryOf(t: Twin, id: Name): (e: Entry)
    requires id in t.kinds && id in t.addresses && id in t.stamps && id in t.xs && id in t.ys && id in t.zs
    requires id in t.headings
  {
    Entry(t.kinds[id], t.addresses[id], Observation(t.stamps[id], t.xs[id], t.ys[id], t.zs[id], t.headings[id]))
  }

  /** What a read message should say of an identifier. */
  function Answer(t: Twin, id: Name): (e: Entry) {
    Entry(LabelIn(t, id).0, LabelIn(t, id).1, SeenIn(t, id))
  }

  /** Reading at one identifier does not change what any other read shows. */
  lemma TouchShows(t: Twin, id: Name, i: Name)
    ensures SeenIn(TouchedAll(t, id), i) == SeenIn(t, i) && LabelIn(TouchedAll(t, id), i) == LabelIn(t, i)
    ensures EntryOf(TouchedAll(t, id), id) == Answer(t, id)
  {}

  /** What an entry shows: the newest accepted observation unless that is too old, and nothing of
      an object without a stamp. */
  lemma EntryShows(t: Twin, latest: Latest, clock: nat, maxAge: nat, id: Name)
    requires TwinOk(t, latest, clock, maxAge)
    ensures (id in latest && SeenIn(t, id) == latest[id]) || SeenIn(t, id) == NOTHING
    ensures id in latest && clock - latest[id].timestamp < maxAge ==> SeenIn(t, id) == latest[id]
    ensures id !in t.stamps ==> SeenIn(t, id) == NOTHING
  {
    assert WholeOrNothing(t, latest, id);
    if id in latest && clock - latest[id].timestamp < maxAge { assert Stores(t, id, latest[id]); }
  }

  /** What should be shown of an object. */
  function Shown(latest: Latest, id: Name, now: nat, maxAge: nat): (seen: Observation) {
    if id in latest && now - latest[id].timestamp < maxAge then latest[id] else NOTHING
  }

  /** After a sweep each object shows its newest observation if that is young enough, else nothing,
      and exactly the young stamps are left. */
  lemma SweepShows(t: Twin, latest: Latest, now: nat, maxAge: nat, id: Name)
    requires TwinOk(t, latest, now, maxAge)
    ensures var r := Erased(t, Expired(t, now, maxAge));
            && SeenIn(r, id) == Shown(latest, id, now, maxAge)
            && (id in r.stamps <==> id in t.stamps && now - t.stamps[id] < maxAge)
  {
    var dead := Expired(t, now, maxAge);
    EntryShows(t, latest, now, maxAge, id);
    ErasedShows(t, dead, id);
    if id in t.stamps { AgeOfPast(now, t.stamps[id]); }
  }

  lemma ErasedShows(t: Twin, dead: set<Name>, id: Name)
    ensures SeenIn(Erased(t, dead), id) == if id in dead then NOTHING else SeenIn(t, id)
    ensures id in Erased(t, dead).stamps <==> id in t.stamps && id !in dead
  {}

  /** The maps show nothing when the object count is zero, so that a sweep may be left out. */
  ghost predicate Counted(t: Twin, n: int) {
    n >= 0 && (n == 0 ==> forall id :: SeenIn(t, id) == NOTHING)
  }

  lemma CountIds(t: Twin, latest: Latest, clock: nat, maxAge: nat)
    requires TwinOk(t, latest, clock, maxAge)
    ensures Counted(t, |t.ids|) && Counted(t, |t.stamps|)
  {
    forall id | id !in t.ids || id !in t.stamps ensures SeenIn(t, id) == NOTHING {
      assert WholeOrNothing(t, latest, id);
    }
  }

  lemma TouchCounts(t: Twin, n: int, id: Name)
    requires Counted(t, n)
    ensures Counted(TouchedAll(t, id), n)
  {
    forall i ensures SeenIn(TouchedAll(t, id), i) == SeenIn(t, i) { TouchShows(t, id, i); }
  }

  // ---- acceptances ------------------------------------------------------------------------------

  /** No acceptance is older than an earlier one of the same object. */
  ghost predicate NeverBack(accepted: seq<(Name, nat)>) {
    forall i, j :: 0 <= i < j < |accepted| && accepted[i].0 == accepted[j].0 ==> accepted[i].1 <= accepted[j].1
  }

  ghost predicate Recorded(accepted: seq<(Name, nat)>, latest: Latest) {
    forall i :: 0 <= i < |accepted| ==> accepted[i].0 in latest && accepted[i].1 <= latest[accepted[i].0].timestamp
  }

  lemma AcceptKeeps(accepted: seq<(Name, nat)>, latest: Latest, id: Name, seen: Observation)
    requires NeverBack(accepted) && Recorded(accepted, latest) && Newer(latest, id, seen.timestamp)
    ensures NeverBack(accepted + [(id, seen.timestamp)])
    ensures Recorded(accepted + [(id, seen.timestamp)], latest[id := seen])
  {}

  // ---- whole runs -------------------------------------------------------------------------------

  /** A message arrives, the sweep is due, or all maps are read at an identifier. */
  datatype Event = Update(at: nat, list: ObjectList) | Sweep(at: nat) | Read(at: nat, id: Name)

  /** The store's own state, and every acceptance so far. */
  datatype Store = Store(nObjects: int, twin: Twin, accepted: seq<(Name, nat)>)

  /** One object of a message, as the maps decide. */
  function Offer(s: Store, o: Tracked, timestamp: nat): (r: Store) {
    if Refuses(s.twin, o.id, timestamp) then s
    else s.(twin := Put(s.twin, o, timestamp), accepted := s.accepted + [(o.id, timestamp)])
  }

  function OfferAll(s: Store, objects: seq<Tracked>, timestamp: nat): (r: Store) {
    if objects == [] then s
    else
      var k := |objects| - 1;
      Offer(OfferAll(s, objects[..k], timestamp), objects[k], timestamp)
  }

  ghost function Next(s: Store, e: Event, maxAge: nat): (r: Store) {
    match e
    case Update(now, list) =>
      var t := if Age(now, list.timestamp) < maxAge then OfferAll(s, list.objects, list.timestamp) else s;
      t.(nObjects := |t.twin.ids|)
    case Sweep(now) =>
      if s.nObjects > 0 then
        var t := Erased(s.twin, Expired(s.twin, now, maxAge));
        s.(nObjects := |t.stamps|, twin := t)
      else s
    case Read(_, id) => s.(twin := TouchedAll(s.twin, id))
  }

  ghost function StoreAfter(events: seq<Event>, maxAge: nat): (r: Store) {
    if events == [] then Store(0, Twin({}, map[], map[], map[], map[], map[], map[], map[]), [])
    else Next(StoreAfter(events[..|events| - 1], maxAge), events[|events| - 1], maxAge)
  }

  /** The clock never runs back; times and stamps are simulation times. */
  ghost predicate Ordered(events: seq<Event>) {
    && (forall i, j :: 0 <= i < j < |events| ==> events[i].at <= events[j].at)
    && (forall i :: 0 <= i < |events| ==> events[i].at < B63 && (events[i].Update? ==> events[i].list.timestamp < B63))
  }

  ghost predicate StoreOk(s: Store, latest: Latest, clock: nat, maxAge: nat) {
    TwinOk(s.twin, latest, clock, maxAge) && NeverBack(s.accepted) && Recorded(s.accepted, latest)
  }

  /** The newest observation accepted of each object, over a run. */
  function LatestNext(latest: Latest, e: Event, maxAge: nat): (r: Latest) {
    if e.Update? && Age(e.at, e.list.timestamp) < maxAge then Merge(latest, e.list.objects, e.list.timestamp)
    else latest
  }

  function LatestAfter(events: seq<Event>, maxAge: nat): (r: Latest) {
    if events == [] then map[]
    else LatestNext(LatestAfter(events[..|events| - 1], maxAge), events[|events| - 1], maxAge)
  }

  lemma {:induction false} OfferAllKeeps(
    s: Store, latest: Latest, clock: nat, maxAge: nat, objects: seq<Tracked>, timestamp: nat)
    requires StoreOk(s, latest, clock, maxAge) && timestamp < B63 && Age(clock, timestamp) < maxAge
    ensures StoreOk(OfferAll(s, objects, timestamp), Merge(latest, objects, timestamp), clock, maxAge)
  {
    if objects != [] {
      var k := |objects| - 1;
      var o, mid, seen := objects[k], OfferAll(s, objects[..k], timestamp), Merge(latest, objects[..k], timestamp);
      OfferAllKeeps(s, latest, clock, maxAge, objects[..k], timestamp);
      RefusesOlder(mid.twin, seen, clock, maxAge, o.id, timestamp);
      GateComplementsExpiry(maxAge, clock, timestamp, 0);
      PutKeeps(mid.twin, seen, clock, maxAge, o, timestamp);
      if Newer(seen, o.id, timestamp) { AcceptKeeps(mid.accepted, seen, o.id, Seen(o, timestamp)); }
    }
  }

  lemma NextKeeps(s: Store, e: Event, maxAge: nat, latest: Latest)
    requires StoreOk(s, latest, e.at, maxAge) && Counted(s.twin, s.nObjects) && (e.Update? ==> e.list.timestamp < B63)
    ensures var r, l := Next(s, e, maxAge), LatestNext(latest, e, maxAge);
            StoreOk(r, l, e.at, maxAge) && Counted(r.twin, r.nObjects)
  {
    match e
    case Update(now, list) =>
      if Age(now, list.timestamp) < maxAge {
        OfferAllKeeps(s, latest, now, maxAge, list.objects, list.timestamp);
        CountIds(OfferAll(s, list.objects, list.timestamp).twin, LatestNext(latest, e, maxAge), now, maxAge);
      } else {
        CountIds(s.twin, latest, now, maxAge);
      }
    case Sweep(now) =>
      EraseKeeps(s.twin, latest, now, maxAge);
      CountIds(Erased(s.twin, Expired(s.twin, now, maxAge)), latest, now, maxAge);
    case Read(now, id) =>
      TouchKeeps(s.twin, TouchedAll(s.twin, id), latest, now, maxAge, id);
      TouchCounts(s.twin, s.nObjects, id);
  }

  lemma {:induction false} RunKeeps(events: seq<Event>, maxAge: nat, clock: nat)
    requires Ordered(events) && maxAge <= B63 && clock < B63 && (events != [] ==> events[|events| - 1].at <= clock)
    ensures var s := StoreAfter(events, maxAge);
            StoreOk(s, LatestAfter(events, maxAge), clock, maxAge) && Counted(s.twin, s.nObjects)
    decreases |events|
  {
    if events != [] {
      var front, e := events[..|events| - 1], events[|events| - 1];
      RunKeeps(front, maxAge, e.at);
      NextKeeps(StoreAfter(front, maxAge), e, maxAge, LatestAfter(front, maxAge));
      WaitKeeps(StoreAfter(events, maxAge).twin, LatestAfter(events, maxAge), e.at, clock, maxAge);
    }
  }

  /** Over every run of updates, sweeps and reads, no observation is accepted after a newer one
      of the same object, not even when the newer one has expired. */
  lemma RunNeverBack(events: seq<Event>, maxAge: nat)
    requires Ordered(events) && maxAge <= B63
    ensures NeverBack(StoreAfter(events, maxAge).accepted)
  {
    RunKeeps(events, maxAge, if events == [] then 0 else events[|events| - 1].at);
  }

  /** After every sweep of a run, whatever the object count, each object shows its newest accepted
      observation if that is young enough, and nothing if it is not. */
  lemma RunShows(events: seq<Event>, maxAge: nat, id: Name)
    requires Ordered(events) && maxAge <= B63 && events != [] && events[|events| - 1].Sweep?
    ensures SeenIn(StoreAfter(events, maxAge).twin, id) ==
            Shown(LatestAfter(events, maxAge), id, events[|events| - 1].at, maxAge)
  {
    var front, e := events[..|events| - 1], events[|events| - 1];
    RunKeeps(front, maxAge, e.at);
    SweepOrNone(StoreAfter(front, maxAge), LatestAfter(front, maxAge), e.at, maxAge, id);
  }

  lemma SweepOrNone(s: Store, latest: Latest, now: nat, maxAge: nat, id: Name)
    requires TwinOk(s.twin, latest, now, maxAge) && Counted(s.twin, s.nObjects)
    ensures SeenIn(Next(s, Sweep(now), maxAge).twin, id) == Shown(latest, id, now, maxAge)
  {
    SweepShows(s.twin, latest, now, maxAge, id);
    EntryShows(s.twin, latest, now, maxAge, id);
  }

  lemma SweepAll(s: Store, latest: Latest, now: nat, maxAge: nat)
    requires TwinOk(s.twin, latest, now, maxAge) && Counted(s.twin, s.nObjects)
    ensures var r := Next(s, Sweep(now), maxAge).twin;
            && (forall id :: SeenIn(r, id) == Shown(latest, id, now, maxAge))
            && (s.nObjects > 0 ==>
                  forall id :: id in r.stamps <==> id in s.twin.stamps && now - s.twin.stamps[id] < maxAge)
  {
    forall id
      ensures var r := Next(s, Sweep(now), maxAge).twin;
              && SeenIn(r, id) == Shown(latest, id, now, maxAge)
              && (s.nObjects > 0 ==> (id in r.stamps <==> id in s.twin.stamps && now - s.twin.stamps[id] < maxAge))
    {
      SweepOrNone(s, latest, now, maxAge, id);
      SweepShows(s.twin, latest, now, maxAge, id);
    }
  }

  // ---- the store --------------------------------------------------------------------------------

  class DtwinStore {
    var nObjects: int
    /** _object_id and the _object_* maps. */
    var twin: Twin
    const maxAge: nat
    /** The newest observation accepted of each object; every acceptance in order; the time. */
    ghost var latest: Latest
    ghost var accepted: seq<(Name, nat)>
    ghost var clock: nat

    /** What holds while a message is being merged. */
    ghost predicate Sound()
      reads this
    {
      TwinOk(twin, latest, clock, maxAge) && NeverBack(accepted) && Recorded(accepted, latest)
    }

    ghost predicate Valid()
      reads this
    {
      Sound() && Counted(twin, nObjects)
    }

    /** The state that the runs above are about. */
    ghost function State(): Store
      reads this
    {
      Store(nObjects, twin, accepted)
    }

    constructor (maxAge: nat)
      requires maxAge <= B63
      ensures Valid() && latest == map[] && accepted == [] && twin.ids == {} && clock == 0 && this.maxAge == maxAge
    {
      this.maxAge := maxAge;
      nObjects, twin := 0, Twin({}, map[], map[], map[], map[], map[], map[], map[]);
      latest, accepted, clock := map[], [], 0;
    }

    /** Lines 113-135: one object of a message that passed the gate. */
    method UpdateObject(o: Tracked, timestamp: nat) returns (updated: bool)
      requires Sound() && timestamp < B63 && Age(clock, timestamp) < maxAge
      modifies this`twin, this`latest, this`accepted
      ensures Sound() && State() == Offer(old(State()), o, timestamp)
      ensures updated <==> o.id !in old(latest) || old(latest)[o.id].timestamp <= timestamp
      ensures updated ==> SeenIn(twin, o.id) == Seen(o, timestamp)
      ensures updated && o.address >= 0 ==> LabelIn(twin, o.id) == (o.kind, o.address)
      ensures latest == MergeOne(old(latest), o, timestamp)
      ensures updated ==> twin == Put(old(twin), o, timestamp) && accepted == old(accepted) + [(o.id, timestamp)]
      ensures !updated ==> twin == old(twin) && accepted == old(accepted)
    {
      RefusesOlder(twin, latest, clock, maxAge, o.id, timestamp);
      GateComplementsExpiry(maxAge, clock, timestamp, 0);
      PutKeeps(twin, latest, clock, maxAge, o, timestamp);
      ghost var before := twin;
      updated := true;
      if o.id in twin.ids {
        twin := twin.(stamps := Touched(twin.stamps, o.id, 0));
        if timestamp < twin.stamps[o.id] { updated := false; }
      }
      if updated {
        PutAfterTouch(before, twin, o, timestamp);
        AcceptKeeps(accepted, latest, o.id, Seen(o, timestamp));
        twin := Put(twin, o, timestamp);
        latest, accepted := latest[o.id := Seen(o, timestamp)], accepted + [(o.id, timestamp)];
      }
    }

    method UpdateObjects(list: ObjectList, now: nat)
      requires Valid() && clock <= now < B63 && list.timestamp < B63
      modifies this
      ensures Valid() && clock == now && nObjects == |twin.ids|
      ensures State() == Next(old(State()), Update(now, list), maxAge)
      ensures Age(now, list.timestamp) < maxAge ==> latest == Merge(old(latest), list.objects, list.timestamp)
      ensures Age(now, list.timestamp) >= maxAge ==>
                twin == old(twin) && latest == old(latest) && accepted == old(accepted)
    {
      WaitKeeps(twin, latest, clock, now, maxAge);
      clock := now;
      if Age(now, list.timestamp) < maxAge { UpdateEach(list.objects, list.timestamp); }
      nObjects := |twin.ids|;
      CountIds(twin, latest, clock, maxAge);
    }

    /** The loop of lines 110-136. */
    method UpdateEach(objects: seq<Tracked>, timestamp: nat)
      requires Sound() && timestamp < B63 && Age(clock, timestamp) < maxAge
      modifies this`twin, this`latest, this`accepted
      ensures Sound() && latest == Merge(old(latest), objects, timestamp)
      ensures State() == OfferAll(old(State()), objects, timestamp)
    {
      var k := 0;
      while k < |objects|
        invariant 0 <= k <= |objects| && Sound()
        invariant latest == Merge(old(latest), objects[..k], timestamp)
        invariant State() == OfferAll(old(State()), objects[..k], timestamp)
      {
        MergeNext(old(latest), objects, k, timestamp);
        OfferNext(old(State()), objects, k, timestamp);
        var updated := UpdateObject(objects[k], timestamp);
        k := k + 1;
      }
      assert objects[..k] == objects;
    }

    /** Erases what is too old, except from the set of identifiers and from the addresses. */
    method CheckObjectExpiry(now: nat)
      requires Valid() && clock <= now < B63
      modifies this`nObjects, this`twin, this`clock
      ensures Valid() && clock == now
      ensures State() == Next(old(State()), Sweep(now), maxAge)
      ensures forall id :: SeenIn(twin, id) == Shown(latest, id, now, maxAge)
      ensures old(nObjects) > 0 ==>
                && nObjects == |twin.stamps|
                && forall id :: id in twin.stamps <==> id in old(twin).stamps && now - old(twin).stamps[id] < maxAge
      ensures old(nObjects) <= 0 ==> nObjects == old(nObjects) && twin == old(twin)
      ensures twin.ids == old(twin.ids) && twin.addresses == old(twin.addresses)
    {
      WaitKeeps(twin, latest, clock, now, maxAge);
      clock := now;
      SweepAll(State(), latest, now, maxAge);
      NextKeeps(State(), Sweep(now), maxAge, latest);
      if nObjects > 0 {
        EraseExpired(now);
        nObjects := |twin.stamps|;
      }
    }

    /** The loop of lines 79-93. */
    method EraseExpired(now: nat)
      modifies this`twin
      ensures twin == Erased(old(twin), Expired(old(twin), now, maxAge))
    {
      var todo := twin.stamps.Keys;
      ghost var start, dead: set<Name> := twin, {};
      ErasedNone(start);
      while todo != {}
        invariant todo <= start.stamps.Keys && twin == Erased(start, dead)
        invariant dead == set id | id in Expired(start, now, maxAge) && id !in todo
        decreases todo
      {
        var id :| id in todo;
        assert id !in dead && id in twin.stamps && twin.stamps[id] == start.stamps[id];
        if Age(now, twin.stamps[id]) >= maxAge {
          ErasedNext(start, dead, id);
          twin := Erased(twin, {id});
          dead := dead + {id};
        }
        todo := todo - {id};
      }
      assert dead == Expired(start, now, maxAge);
    }

    /** Lines 206-209; the other accessors do the same on their own maps. */
    method ReadTimestamp(id: Name) returns (timestamp: nat)
      requires Valid()
      modifies this`twin
      ensures Valid() && twin == old(twin).(stamps := Touched(old(twin).stamps, id, 0))
      ensures timestamp == if id in old(twin).stamps then old(twin).stamps[id] else 0
    {
      ghost var before := twin;
      twin := twin.(stamps := Touched(twin.stamps, id, 0));
      TouchKeeps(before, twin, latest, clock, maxAge, id);
      forall i ensures SeenIn(twin, i) == SeenIn(before, i) {}
      return twin.stamps[id];
    }

    method ReadPositionX(id: Name) returns (x: real)
      requires Valid()
      modifies this`twin
      ensures Valid() && twin == old(twin).(xs := Touched(old(twin).xs, id, 0.0))
      ensures x == if id in old(twin).xs then old(twin).xs[id] else 0.0
    {
      ghost var before := twin;
      twin := twin.(xs := Touched(twin.xs, id, 0.0));
      TouchKeeps(before, twin, latest, clock, maxAge, id);
      forall i ensures SeenIn(twin, i) == SeenIn(before, i) {}
      return twin.xs[id];
    }

    /** Lines 163-170. */
    method ReadEntry(id: Name) returns (entry: Entry)
      requires Valid()
      modifies this`twin
      ensures Valid() && twin == TouchedAll(old(twin), id) && entry == EntryOf(twin, id)
    {
      ghost var before := twin;
      TouchCounts(twin, nObjects, id);
      twin := TouchedAll(twin, id);
      TouchKeeps(before, twin, latest, clock, maxAge, id);
      entry := Entry(twin.kinds[id], twin.addresses[id],
                     Observation(twin.stamps[id], twin.xs[id], twin.ys[id], twin.zs[id], twin.headings[id]));
    }

    /** What the entry says, for the loop below. */
    method ReadNext(id: Name) returns (entry: Entry)
      requires Valid()
      modifies this`twin
      ensures Valid() && twin.ids == old(twin.ids) && entry == Answer(old(twin), id)
      ensures forall i :: Answer(twin, i) == Answer(old(twin), i)
    {
      forall i ensures Answer(TouchedAll(twin, id), i) == Answer(twin, i) { TouchShows(twin, id, i); }
      TouchShows(twin, id, id);
      entry := ReadEntry(id);
    }

    /** The message of readFromStore: one entry for each identifier ever accepted, filled up
        with defaults for what has expired. */
    method ReadFromStore() returns (n: int, entries: map<Name, Entry>)
      requires Valid()
      modifies this`twin
      ensures Valid() && n == nObjects && entries.Keys == twin.ids == old(twin.ids)
      ensures forall id :: id in entries ==> entries[id] == Answer(old(twin), id)
      ensures forall id :: id in entries && id in latest && clock - latest[id].timestamp < maxAge ==>
                entries[id].seen == latest[id]
      ensures forall id :: id in entries && id !in old(twin).stamps ==> entries[id].seen == NOTHING
    {
      ghost var start := twin;
      n, entries := ReadEntries();
      forall id | id in entries
        ensures id in latest && clock - latest[id].timestamp < maxAge ==> entries[id].seen == latest[id]
        ensures id !in start.stamps ==> entries[id].seen == NOTHING
      {
        EntryShows(start, latest, clock, maxAge, id);
      }
    }

    /** The loop of lines 161-171. */
    method ReadEntries() returns (n: int, entries: map<Name, Entry>)
      requires Valid()
      modifies this`twin
      ensures Valid() && n == nObjects && entries.Keys == twin.ids == old(twin.ids)
      ensures forall id :: id in entries ==> entries[id] == Answer(old(twin), id)
    {
      n, entries := nObjects, map[];
      var todo := twin.ids;
      ghost var start := twin;
      while todo != {}
        invariant Valid() && twin.ids == start.ids && todo <= twin.ids && entries.Keys == twin.ids - todo
        invariant forall i :: Answer(twin, i) == Answer(start, i)
        invariant forall id :: id in entries ==> entries[id] == Answer(start, id)
        decreases todo
      {
        var id :| id in todo;
        var entry := ReadNext(id);
        entries := entries[id := entry];
        todo := todo - {id};
      }
    }

    /** SubscriberStore's side update. */
    method UpdateObjectTypeAndAddress(id: Name, kind: Name, address: int)
      requires Valid()
      modifies this`twin
      ensures Valid()
      ensures id !in old(twin).ids ==> twin == old(twin)
      ensures id in old(twin).ids ==>
                var kinds, addresses := old(twin.kinds)[id := kind], old(twin.addresses)[id := address];
                twin == old(twin).(kinds := kinds, addresses := addresses)
    {
      if id in twin.ids {
        ghost var before := twin;
        twin := twin.(kinds := twin.kinds[id := kind], addresses := twin.addresses[id := address]);
        TouchKeeps(before, twin, latest, clock, maxAge, id);
        forall i ensures SeenIn(twin, i) == SeenIn(before, i) {}
      }
    }
  }

  lemma OfferNext(s: Store, objects: seq<Tracked>, k: nat, timestamp: nat)
    requires k < |objects|
    ensures OfferAll(s, objects[..k + 1], timestamp) ==
            Offer(OfferAll(s, objects[..k], timestamp), objects[k], timestamp)
  {
    assert objects[..k + 1][..k] == objects[..k];
  }

  lemma MergeNext(latest: Latest, objects: seq<Tracked>, k: nat, timestamp: nat)
    requires k < |objects|
    ensures Merge(latest, objects[..k + 1], timestamp) ==
            MergeOne(Merge(latest, objects[..k], timestamp), objects[k], timestamp)
  {
    assert objects[..k + 1][..k] == objects[..k];
  }
}
