/**
 The convoy member and subscriber stores: vectors of time-stamped records, one per node name,
 that keep the newer of two reports and drop what has become too old. Both stores have the
 same update and expiry code over their own record types; P stands for the other fields.
 */
module ReportStores {
  import opened Options
  import opened ConvoyTypes
  import opened Widths

  datatype Record<P> = Record(name: string, timestamp: nat, payload: P)

  // ---- one update, one sweep ---------------------------------------------------------------

  function IndexOf<P>(records: seq<Record<P>>, name: string): (i: nat)
    ensures i <= |records|
    ensures i < |records| ==> records[i].name == name
    ensures forall k :: 0 <= k < i ==> records[k].name != name
  {
    if records == [] || records[0].name == name then 0 else 1 + IndexOf(records[1..], name)
  }

  function Updated<P>(records: seq<Record<P>>, r: Record<P>): (s: seq<Record<P>>) {
    var i := IndexOf(records, r.name);
    if i == |records| then records + [r]
    else if records[i].timestamp < r.timestamp then records[i := r]
    else records
  }

  function Swept<P>(records: seq<Record<P>>, now: nat, maxAge: nat): (s: seq<Record<P>>)
    ensures forall k :: 0 <= k < |s| ==> s[k] in records && Age(now, s[k].timestamp) < maxAge
    ensures forall r :: r in records && Age(now, r.timestamp) < maxAge ==> r in s
  {
    if records == [] then []
    else
      var rest := Swept(records[1..], now, maxAge);
      if Age(now, records[0].timestamp) >= maxAge then rest else [records[0]] + rest
  }

  // ---- the newest report ----------------------------------------------------------------------

  /** Of all reports with a name, the first to carry the greatest stamp. */
  ghost function Newest<P>(received: seq<Record<P>>, name: string): (r: Option<Record<P>>) {
    if received == [] then None
    else
      var before, last := Newest(received[..|received| - 1], name), received[|received| - 1];
      if last.name == name && (before.None? || before.value.timestamp < last.timestamp) then Some(last) else before
  }

  ghost predicate IsNewestAt<P>(received: seq<Record<P>>, name: string, i: nat) {
    && i < |received| && received[i].name == name
    && (forall j :: 0 <= j < |received| && received[j].name == name ==> received[j].timestamp <= received[i].timestamp)
    && (forall j :: 0 <= j < i && received[j].name == name ==> received[j].timestamp < received[i].timestamp)
  }

  ghost predicate HasNewest<P>(received: seq<Record<P>>, name: string, r: Record<P>) {
    exists i: nat :: IsNewestAt(received, name, i) && received[i] == r
  }

  ghost predicate Unheard<P>(received: seq<Record<P>>, name: string) {
    forall j :: 0 <= j < |received| ==> received[j].name != name
  }

  lemma NewReport<P>(front: seq<Record<P>>, last: Record<P>, before: Option<Record<P>>)
    requires before.None? ==> Unheard(front, last.name)
    requires before.Some? ==> HasNewest(front, last.name, before.value) && before.value.timestamp < last.timestamp
    ensures HasNewest(front + [last], last.name, last)
  {
    var all := front + [last];
    if before.Some? {
      var i: nat :| IsNewestAt(front, last.name, i) && front[i] == before.value;
    }
    assert IsNewestAt(all, last.name, |front|) && all[|front|] == last;
  }

  lemma OldReport<P>(front: seq<Record<P>>, last: Record<P>, name: string, r: Record<P>)
    requires HasNewest(front, name, r) && (last.name == name ==> last.timestamp <= r.timestamp)
    ensures HasNewest(front + [last], name, r)
  {
    var all := front + [last];
    var i: nat :| IsNewestAt(front, name, i) && front[i] == r;
    assert IsNewestAt(all, name, i) && all[i] == r;
  }

  /** The recursive and the declarative reading agree. */
  lemma {:induction false} NewestIs<P>(received: seq<Record<P>>, name: string)
    ensures Newest(received, name).None? ==> Unheard(received, name)
    ensures Newest(received, name).Some? ==> HasNewest(received, name, Newest(received, name).value)
  {
    if received != [] {
      var k := |received| - 1;
      var front, last := received[..k], received[k];
      assert received == front + [last];
      NewestIs(front, name);
      var before := Newest(front, name);
      if last.name == name && (before.None? || before.value.timestamp < last.timestamp) {
        NewReport(front, last, before);
      } else if before.Some? {
        OldReport(front, last, name, before.value);
      }
    }
  }

  // ---- what every step keeps --------------------------------------------------------------------

  ghost predicate OnePerName<P>(records: seq<Record<P>>) {
    forall i, j :: 0 <= i < j < |records| ==> records[i].name != records[j].name
  }

  /** No stamp lies in the future of the clock. */
  ghost predicate Past<P>(received: seq<Record<P>>, clock: nat) {
    clock < B64 && forall i :: 0 <= i < |received| ==> received[i].timestamp <= clock
  }

  ghost predicate LiveNewest<P>(received: seq<Record<P>>, name: string, clock: nat, maxAge: nat) {
    Newest(received, name).Some? && Age(clock, Newest(received, name).value.timestamp) < maxAge
  }

  /** Too old at the clock, in plain numbers; it stays so. */
  predicate Outdated(timestamp: nat, clock: nat, maxAge: nat) {
    timestamp + maxAge <= clock
  }

  /** A newest report is stored unless it is too old. */
  ghost predicate Kept<P>(records: seq<Record<P>>, received: seq<Record<P>>, name: string, clock: nat, maxAge: nat) {
    var newest := Newest(received, name);
    newest.Some? ==> newest.value in records || Outdated(newest.value.timestamp, clock, maxAge)
  }

  /** Records are received reports, one per name. */
  ghost predicate Basic<P>(records: seq<Record<P>>, received: seq<Record<P>>) {
    OnePerName(records) && forall i :: 0 <= i < |records| ==> records[i] in received
  }

  ghost predicate StoreOk<P>(records: seq<Record<P>>, received: seq<Record<P>>, clock: nat, maxAge: nat) {
    Basic(records, received) && forall name :: Kept(records, received, name, clock, maxAge)
  }

  /** Exactly the live newest reports are stored. */
  ghost predicate Exact<P>(records: seq<Record<P>>, received: seq<Record<P>>, clock: nat, maxAge: nat) {
    && OnePerName(records)
    && (forall name :: LiveNewest(received, name, clock, maxAge) ==> Newest(received, name).value in records)
    && (forall i :: 0 <= i < |records| ==>
          LiveNewest(received, records[i].name, clock, maxAge) && records[i] == Newest(received, records[i].name).value)
  }

  lemma {:induction false} NewestBounds<P>(received: seq<Record<P>>, r: Record<P>)
    requires r in received
    ensures Newest(received, r.name).Some? && r.timestamp <= Newest(received, r.name).value.timestamp
    ensures Newest(received, r.name).value.name == r.name
  {
    NewestIs(received, r.name);
    var j :| 0 <= j < |received| && received[j] == r;
  }

  lemma NewestName<P>(received: seq<Record<P>>, name: string)
    requires Newest(received, name).Some?
    ensures Newest(received, name).value in received && Newest(received, name).value.name == name
  {
    NewestIs(received, name);
    var i: nat :| IsNewestAt(received, name, i) && received[i] == Newest(received, name).value;
  }

  /** Waiting makes nothing young again. */
  lemma WaitKeeps<P>(records: seq<Record<P>>, received: seq<Record<P>>, clock: nat, later: nat, maxAge: nat)
    requires StoreOk(records, received, clock, maxAge) && clock <= later
    ensures StoreOk(records, received, later, maxAge)
  {
    forall name ensures Kept(records, received, name, later, maxAge) {
      assert Kept(records, received, name, clock, maxAge);
    }
  }

  lemma PushNewest<P>(received: seq<Record<P>>, r: Record<P>, name: string)
    ensures var before := Newest(received, name);
            Newest(received + [r], name) ==
              if r.name == name && (before.None? || before.value.timestamp < r.timestamp) then Some(r) else before
  {
    assert (received + [r])[..|received|] == received;
  }

  lemma UpdatedShape<P>(records: seq<Record<P>>, r: Record<P>)
    requires OnePerName(records)
    ensures OnePerName(Updated(records, r))
    ensures forall x :: x in Updated(records, r) ==> x in records || x == r
    ensures forall x :: x in records && x.name != r.name ==> x in Updated(records, r)
    ensures forall x :: x in records && x.name == r.name && r.timestamp <= x.timestamp ==> x in Updated(records, r)
    ensures (forall x :: x in records && x.name == r.name ==> x.timestamp < r.timestamp) ==> r in Updated(records, r)
  {
    var i := IndexOf(records, r.name);
    var s := Updated(records, r);
    if i < |records| && records[i].timestamp < r.timestamp {
      assert s[i] == r;
      forall x | x in records && x != records[i] ensures x in s {
        var k :| 0 <= k < |records| && records[k] == x;
        assert s[k] == x;
      }
      forall x | x in s ensures x in records || x == r {
        var k :| 0 <= k < |s| && s[k] == x;
      }
    }
  }

  lemma UpdateBasic<P>(records: seq<Record<P>>, received: seq<Record<P>>, r: Record<P>)
    requires Basic(records, received)
    ensures Basic(Updated(records, r), received + [r])
  {
    var s, all := Updated(records, r), received + [r];
    UpdatedShape(records, r);
    forall i | 0 <= i < |s| ensures s[i] in all {
      assert s[i] in records || s[i] == r;
      if s[i] in records {
        var k :| 0 <= k < |records| && records[k] == s[i];
      }
    }
  }

  /** Any report, whatever its stamp. */
  lemma UpdateKeeps<P>(records: seq<Record<P>>, received: seq<Record<P>>, r: Record<P>, clock: nat, maxAge: nat)
    requires StoreOk(records, received, clock, maxAge)
    ensures StoreOk(Updated(records, r), received + [r], clock, maxAge)
  {
    var s, all := Updated(records, r), received + [r];
    UpdatedShape(records, r);
    UpdateBasic(records, received, r);
    forall name ensures Kept(s, all, name, clock, maxAge) {
      assert Kept(records, received, name, clock, maxAge);
      PushNewest(received, r, name);
      if Newest(all, name).Some? {
        NewestName(all, name);
        if Newest(all, name) != Newest(received, name) {
          forall x | x in records && x.name == r.name ensures x.timestamp < r.timestamp {
            var k :| 0 <= k < |records| && records[k] == x;
            NewestBounds(received, x);
          }
        }
      }
    }
  }

  lemma {:induction false} SweptOnePerName<P>(records: seq<Record<P>>, now: nat, maxAge: nat)
    requires OnePerName(records)
    ensures OnePerName(Swept(records, now, maxAge))
  {
    if records != [] {
      SweptOnePerName(records[1..], now, maxAge);
      var rest := Swept(records[1..], now, maxAge);
      forall k | 0 <= k < |rest| ensures rest[k].name != records[0].name {
        assert rest[k] in records[1..];
      }
    }
  }

  lemma SweepBasic<P>(records: seq<Record<P>>, received: seq<Record<P>>, now: nat, maxAge: nat)
    requires Basic(records, received)
    ensures Basic(Swept(records, now, maxAge), received)
  {
    var s := Swept(records, now, maxAge);
    SweptOnePerName(records, now, maxAge);
    forall i | 0 <= i < |s| ensures s[i] in received {
      var k :| 0 <= k < |records| && records[k] == s[i];
    }
  }

  /** What survives a sweep is the newest report of its name. */
  lemma SurvivorIsNewest<P>(records: seq<Record<P>>, received: seq<Record<P>>, clock: nat, maxAge: nat, x: Record<P>)
    requires StoreOk(records, received, clock, maxAge) && Past(received, clock)
    requires x in records && Age(clock, x.timestamp) < maxAge
    ensures x in received && LiveNewest(received, x.name, clock, maxAge) && x == Newest(received, x.name).value
  {
    var k :| 0 <= k < |records| && records[k] == x;
    NewestBounds(received, x);
    var newest := Newest(received, x.name).value;
    NewestName(received, x.name);
    var j :| 0 <= j < |received| && received[j] == newest;
    assert Kept(records, received, x.name, clock, maxAge);
    var l :| 0 <= l < |records| && records[l] == newest;
    assert records[k].name == records[l].name;
  }

  /** A sweep at a time that no stamp exceeds keeps the invariant and leaves exactly the live
      newest reports. */
  lemma SweepExact<P>(records: seq<Record<P>>, received: seq<Record<P>>, clock: nat, maxAge: nat)
    requires StoreOk(records, received, clock, maxAge) && Past(received, clock)
    ensures StoreOk(Swept(records, clock, maxAge), received, clock, maxAge)
    ensures Exact(Swept(records, clock, maxAge), received, clock, maxAge)
  {
    var s := Swept(records, clock, maxAge);
    SweepBasic(records, received, clock, maxAge);
    forall i | 0 <= i < |s|
      ensures s[i] in received && LiveNewest(received, s[i].name, clock, maxAge)
      ensures s[i] == Newest(received, s[i].name).value
    {
      SurvivorIsNewest(records, received, clock, maxAge, s[i]);
    }
    forall name
      ensures Kept(s, received, name, clock, maxAge)
      ensures LiveNewest(received, name, clock, maxAge) ==> Newest(received, name).value in s
    {
      NewestSurvives(records, received, clock, maxAge, name);
    }
  }

  lemma NewestSurvives<P>(records: seq<Record<P>>, received: seq<Record<P>>, clock: nat, maxAge: nat, name: string)
    requires StoreOk(records, received, clock, maxAge) && Past(received, clock)
    ensures Kept(Swept(records, clock, maxAge), received, name, clock, maxAge)
    ensures LiveNewest(received, name, clock, maxAge) ==> Newest(received, name).value in Swept(records, clock, maxAge)
  {
    assert Kept(records, received, name, clock, maxAge);
    if Newest(received, name).Some? {
      NewestName(received, name);
      var n := Newest(received, name).value;
      assert n.timestamp <= clock by { var j :| 0 <= j < |received| && received[j] == n; }
      assert Age(clock, n.timestamp) == clock - n.timestamp;
      assert n in records && Age(clock, n.timestamp) < maxAge ==> n in Swept(records, clock, maxAge);
    }
  }

  /** A sweep before the time of a stamp takes the record, newest or not. */
  lemma FutureIsSwept<P>(records: seq<Record<P>>, r: Record<P>, now: nat, maxAge: nat)
    requires now < r.timestamp < B63 && maxAge <= B63
    ensures r !in Swept(records, now, maxAge)
  {
    assert (now - r.timestamp) % B64 == now - r.timestamp + B64;
  }

  // ---- whole runs ---------------------------------------------------------------------------------

  datatype Event<P> = Report(at: nat, record: Record<P>) | Sweep(at: nat)

  /** The clock never runs back; times and stamps are simulation times. */
  ghost predicate Ordered<P>(events: seq<Event<P>>) {
    && (forall i, j :: 0 <= i < j < |events| ==> events[i].at <= events[j].at)
    && (forall i :: 0 <= i < |events| ==>
          events[i].at < B63 && (events[i].Report? ==> events[i].record.timestamp < B63))
  }

  /** No sweep happens before the time of a stamp received by then. Reports themselves may be
      stamped later than they arrive. */
  ghost predicate Timely<P>(events: seq<Event<P>>) {
    forall i :: 0 <= i < |events| ==> TimelyAt(events, i)
  }

  ghost predicate TimelyAt<P>(events: seq<Event<P>>, i: nat)
    requires i < |events|
  {
    events[i].Sweep? ==> Past(Received(events[..i]), events[i].at)
  }

  ghost function Received<P>(events: seq<Event<P>>): (r: seq<Record<P>>) {
    if events == [] then []
    else
      var before, e := Received(events[..|events| - 1]), events[|events| - 1];
      if e.Report? then before + [e.record] else before
  }

  /** The store after a run that starts empty. */
  function StoreAfter<P>(events: seq<Event<P>>, maxAge: nat): (records: seq<Record<P>>) {
    if events == [] then []
    else
      var before, e := StoreAfter(events[..|events| - 1], maxAge), events[|events| - 1];
      if e.Report? then Updated(before, e.record) else Swept(before, e.at, maxAge)
  }

  lemma TimelyFront<P>(events: seq<Event<P>>)
    requires Timely(events) && events != []
    ensures Timely(events[..|events| - 1])
    ensures events[|events| - 1].Sweep? ==> Past(Received(events[..|events| - 1]), events[|events| - 1].at)
  {
    var front := events[..|events| - 1];
    assert TimelyAt(events, |events| - 1);
    forall i | 0 <= i < |front| ensures TimelyAt(front, i) { assert TimelyAt(events, i) && front[..i] == events[..i]; }
  }

  lemma {:induction false} RunKeeps<P>(events: seq<Event<P>>, maxAge: nat, clock: nat)
    requires Ordered(events) && Timely(events) && (events != [] ==> events[|events| - 1].at <= clock)
    ensures StoreOk(StoreAfter(events, maxAge), Received(events), clock, maxAge)
  {
    if events == [] {
      forall name ensures Kept(StoreAfter(events, maxAge), Received(events), name, clock, maxAge) {}
    } else {
      var front, e := events[..|events| - 1], events[|events| - 1];
      TimelyFront(events);
      RunKeeps(front, maxAge, e.at);
      if e.Report? {
        UpdateKeeps(StoreAfter(front, maxAge), Received(front), e.record, e.at, maxAge);
      } else {
        SweepExact(StoreAfter(front, maxAge), Received(front), e.at, maxAge);
      }
      WaitKeeps(StoreAfter(events, maxAge), Received(events), e.at, clock, maxAge);
    }
  }

  /** After every sweep the store holds exactly one record for each name whose newest report
      ever received is young enough, and that record is that report. */
  lemma RunExact<P>(events: seq<Event<P>>, maxAge: nat)
    requires Ordered(events) && Timely(events) && events != [] && events[|events| - 1].Sweep?
    ensures Exact(StoreAfter(events, maxAge), Received(events), events[|events| - 1].at, maxAge)
  {
    var front, e := events[..|events| - 1], events[|events| - 1];
    TimelyFront(events);
    RunKeeps(front, maxAge, e.at);
    SweepExact(StoreAfter(front, maxAge), Received(front), e.at, maxAge);
  }

  /** The run, a sweep, and another one at some later time. */
  ghost function TwoSweeps<P>(events: seq<Event<P>>, now: nat, later: nat): (r: seq<Event<P>>) {
    events + [Sweep(now)] + [Sweep(later)]
  }

  /** One more event. */
  lemma EventPush<P>(events: seq<Event<P>>, e: Event<P>, maxAge: nat)
    ensures StoreAfter(events + [e], maxAge) ==
            if e.Report? then Updated(StoreAfter(events, maxAge), e.record)
            else Swept(StoreAfter(events, maxAge), e.at, maxAge)
    ensures Received(events + [e]) == if e.Report? then Received(events) + [e.record] else Received(events)
  {
    assert (events + [e])[..|events|] == events;
  }

  lemma TwoSweepsAre<P>(events: seq<Event<P>>, now: nat, later: nat, maxAge: nat)
    ensures var all := TwoSweeps(events, now, later);
            && StoreAfter(all, maxAge) == Swept(Swept(StoreAfter(events, maxAge), now, maxAge), later, maxAge)
            && Received(all) == Received(events)
  {
    EventPush(events, Sweep(now), maxAge);
    EventPush(events + [Sweep(now)], Sweep(later), maxAge);
  }

  lemma SweepTimely<P>(events: seq<Event<P>>, now: nat)
    requires Ordered(events) && Timely(events) && (events != [] ==> events[|events| - 1].at <= now) && now < B63
    requires Past(Received(events), now)
    ensures Ordered(events + [Sweep(now)]) && Timely(events + [Sweep(now)])
  {
    OrderedPush(events, Sweep(now));
    TimelyPush(events, Sweep(now));
  }

  lemma OrderedPush<P>(events: seq<Event<P>>, e: Event<P>)
    requires Ordered(events) && (events != [] ==> events[|events| - 1].at <= e.at) && e.Sweep? && e.at < B63
    ensures Ordered(events + [e])
  {}

  lemma TimelyPush<P>(events: seq<Event<P>>, e: Event<P>)
    requires Timely(events) && (e.Sweep? ==> Past(Received(events), e.at))
    ensures Timely(events + [e])
  {
    var all := events + [e];
    forall i | 0 <= i < |all| ensures TimelyAt(all, i) {
      if i < |events| {
        assert TimelyAt(events, i) && all[..i] == events[..i];
      } else {
        assert all[..i] == events;
      }
    }
  }

  lemma TwoSweepsTimely<P>(events: seq<Event<P>>, now: nat, later: nat)
    requires Ordered(events) && Timely(events) && (events != [] ==> events[|events| - 1].at <= now)
    requires now <= later < B63
    requires Past(Received(events), now)
    ensures Ordered(TwoSweeps(events, now, later)) && Timely(TwoSweeps(events, now, later))
  {
    SweepTimely(events, now);
    EventPush(events, Sweep(now), 0);
    SweepTimely(events + [Sweep(now)], later);
  }

  /** A sweep that meets a stamp of a later time loses that report: at that time it is the newest
      of its name, of age 0, and not in the store. */
  lemma EarlySweepLoses<P>(events: seq<Event<P>>, now: nat, maxAge: nat) returns (later: nat)
    requires Ordered(events) && 0 < maxAge <= B63 && now < B63 && !Past(Received(events), now)
    ensures now < later < B63
    ensures !Exact(StoreAfter(TwoSweeps(events, now, later), maxAge), Received(events), later, maxAge)
  {
    var received := Received(events);
    ReceivedStamps(events);
    var i :| 0 <= i < |received| && received[i].timestamp > now;
    NewestBounds(received, received[i]);
    var name := received[i].name;
    NewestName(received, name);
    var r := Newest(received, name).value;
    later := r.timestamp;
    TwoSweepsAre(events, now, later, maxAge);
    FutureIsSwept(StoreAfter(events, maxAge), r, now, maxAge);
    assert LiveNewest(received, name, later, maxAge);
  }

  lemma {:induction false} ReceivedStamps<P>(events: seq<Event<P>>)
    requires Ordered(events)
    ensures forall r :: r in Received(events) ==> r.timestamp < B63
  {
    if events != [] { ReceivedStamps(events[..|events| - 1]); }
  }

  /** A sweep at a given time after a timely run does no harm, now or later, exactly when no
      stamp received so far exceeds that time. */
  lemma SweepHarmlessWhen<P>(events: seq<Event<P>>, now: nat, maxAge: nat)
    requires Ordered(events) && Timely(events) && (events != [] ==> events[|events| - 1].at <= now) && now < B63
    requires 0 < maxAge <= B63
    ensures (forall later :: now <= later < B63 ==>
               Exact(StoreAfter(TwoSweeps(events, now, later), maxAge), Received(events), later, maxAge))
            <==> Past(Received(events), now)
  {
    if Past(Received(events), now) {
      forall later | now <= later < B63
        ensures Exact(StoreAfter(TwoSweeps(events, now, later), maxAge), Received(events), later, maxAge)
      {
        TwoSweepsTimely(events, now, later);
        TwoSweepsAre(events, now, later, maxAge);
        RunExact(TwoSweeps(events, now, later), maxAge);
      }
    } else {
      var later := EarlySweepLoses(events, now, maxAge);
    }
  }

  ghost function EarlySweepRun<P>(newer: Record<P>, older: Record<P>): seq<Event<P>> {
    (([Report(0, newer)] + [Sweep(1)]) + [Report(2, older)]) + [Sweep(3)]
  }

  lemma FirstReport<P>(at: nat, r: Record<P>, maxAge: nat)
    ensures StoreAfter([Report(at, r)], maxAge) == [r] && Received([Report(at, r)]) == [r]
    ensures Updated([], r) == [r]
  {
    EventPush([], Report(at, r), maxAge);
    assert [] + [Report(at, r)] == [Report(at, r)];
  }

  lemma EarlySweepRunIs<P>(newer: Record<P>, older: Record<P>, maxAge: nat)
    ensures StoreAfter(EarlySweepRun(newer, older), maxAge) ==
            Swept(Updated(Swept([newer], 1, maxAge), older), 3, maxAge)
    ensures Received(EarlySweepRun(newer, older)) == [newer] + [older]
  {
    var one := [Report(0, newer)];
    FirstReport(0, newer, maxAge);
    EventPush(one, Sweep(1), maxAge);
    EventPush(one + [Sweep(1)], Report(2, older), maxAge);
    EventPush((one + [Sweep(1)]) + [Report(2, older)], Sweep(3), maxAge);
  }

  /** Once the report stamped 5 has been swept at time 1, an older one takes its place. */
  lemma OlderReportReturns<P>(newer: Record<P>, older: Record<P>)
    requires newer.name == older.name && newer.timestamp == 5 && older.timestamp == 1
    ensures var events := EarlySweepRun(newer, older);
            && StoreAfter(events, 10) == [older] && Newest(Received(events), newer.name) == Some(newer)
            && !Exact(StoreAfter(events, 10), Received(events), 3, 10)
  {
    EarlySweepRunIs(newer, older, 10);
    SweptOne(newer, 1, 10);
    FirstReport(0, older, 10);
    SweptOne(older, 3, 10);
    NewestOfTwo(newer, older);
    NotExact([older], [newer] + [older], 3, 10);
  }

  lemma NewestOfTwo<P>(a: Record<P>, b: Record<P>)
    requires a.name == b.name && b.timestamp <= a.timestamp
    ensures Newest([a] + [b], a.name) == Some(a)
  {
    PushNewest([], a, a.name);
    assert [] + [a] == [a];
    PushNewest([a], b, a.name);
  }

  /** A record that is not the newest of its name. */
  lemma NotExact<P>(records: seq<Record<P>>, received: seq<Record<P>>, clock: nat, maxAge: nat)
    requires records != [] && Newest(received, records[0].name).Some?
    requires records[0] != Newest(received, records[0].name).value
    ensures !Exact(records, received, clock, maxAge)
  {}

  lemma SweptOne<P>(r: Record<P>, now: nat, maxAge: nat)
    ensures Swept([r], now, maxAge) == if Age(now, r.timestamp) >= maxAge then [] else [r]
  {
    assert Swept([r][1..], now, maxAge) == [];
  }

  // ---- the store ------------------------------------------------------------------------------------

  /** MemberStore and SubscriberStore. */
  class ReportStore<P> {
    var records: seq<Record<P>>
    const maxAge: nat
    /** Every report so far, in the order of arrival; the time of the last event; and whether no
        sweep so far has met a stamp of a later time. */
    ghost var received: seq<Record<P>>
    ghost var clock: nat
    ghost var timely: bool

    ghost predicate Valid()
      reads this
    {
      Basic(records, received) && (timely ==> StoreOk(records, received, clock, maxAge))
    }

    constructor (maxAge: nat)
      ensures Valid() && records == [] && received == [] && clock == 0 && timely && this.maxAge == maxAge
    {
      this.maxAge := maxAge;
      records, received, clock, timely := [], [], 0, true;
    }

    method Find(name: string) returns (i: nat)
      ensures i == IndexOf(records, name)
    {
      i := 0;
      while i < |records| && records[i].name != name
        invariant 0 <= i <= |records| && IndexOf(records, name) == i + IndexOf(records[i..], name)
      {
        i := i + 1;
      }
    }

    /** updateNodeCCSReports, updateSubscriberList. */
    method Update(r: Record<P>, now: nat)
      requires Valid() && clock <= now
      modifies this
      ensures Valid() && clock == now && received == old(received) + [r] && timely == old(timely)
      ensures records == Updated(old(records), r)
    {
      UpdateBasic(records, received, r);
      if timely {
        WaitKeeps(records, received, clock, now, maxAge);
        UpdateKeeps(records, received, r, now, maxAge);
      }
      received, clock := received + [r], now;
      var i := Find(r.name);
      if i < |records| {
        if records[i].timestamp < r.timestamp { records := records[i := r]; }
      } else {
        records := records + [r];
      }
    }

    /** checkMemberExpiry, checkSubscriberExpiry. */
    method CheckExpiry(now: nat)
      requires Valid() && clock <= now
      modifies this
      ensures Valid() && clock == now && received == old(received)
      ensures timely <==> old(timely) && Past(received, now)
      ensures records == Swept(old(records), now, maxAge)
      ensures timely ==> Exact(records, received, now, maxAge)
    {
      SweepBasic(records, received, now, maxAge);
      timely := timely && Past(received, now);
      if timely {
        WaitKeeps(records, received, clock, now, maxAge);
        SweepExact(records, received, now, maxAge);
      }
      clock := now;
      records := Swept(records, now, maxAge);
    }
  }
}
