/** How a node remembers broadcasts and which of them it follows. */
module ClusterSelection {
  import opened Options
  import opened ConvoyTypes

  // ---- remembering broadcasts ---------------------------------------------------------------

  function IndexOf(table: seq<Broadcast>, cluster: int): (i: nat)
    ensures i <= |table|
    ensures i < |table| ==> table[i].cluster == cluster
    ensures forall k :: 0 <= k < i ==> table[k].cluster != cluster
  {
    if table == [] || table[0].cluster == cluster then 0 else 1 + IndexOf(table[1..], cluster)
  }

  /** Replace the cluster's entry, or append one. */
  function Noted(table: seq<Broadcast>, b: Broadcast): (t: seq<Broadcast>) {
    var i := IndexOf(table, b.cluster);
    if i < |table| then table[i := b] else table + [b]
  }

  function Table(received: seq<Broadcast>): (t: seq<Broadcast>) {
    if received == [] then [] else Noted(Table(received[..|received| - 1]), received[|received| - 1])
  }

  ghost predicate OnePerCluster(table: seq<Broadcast>) {
    forall i, j :: 0 <= i < j < |table| ==> table[i].cluster != table[j].cluster
  }

  /** The broadcast at index i is the latest of its cluster. */
  ghost predicate LatestAt(received: seq<Broadcast>, i: nat) {
    i < |received| && forall j :: i < j < |received| ==> received[j].cluster != received[i].cluster
  }

  ghost predicate IsLatest(received: seq<Broadcast>, b: Broadcast) {
    exists i: nat :: LatestAt(received, i) && received[i] == b
  }

  lemma NotedShape(table: seq<Broadcast>, b: Broadcast)
    requires OnePerCluster(table)
    ensures OnePerCluster(Noted(table, b))
    ensures forall x :: x in Noted(table, b) <==> x == b || (x in table && x.cluster != b.cluster)
  {
    var i := IndexOf(table, b.cluster);
    var t := Noted(table, b);
    forall x ensures x in t <==> x == b || (x in table && x.cluster != b.cluster) {
      if x in t {
        var k :| 0 <= k < |t| && t[k] == x;
      }
      if x in table && x.cluster != b.cluster {
        var k :| 0 <= k < |table| && table[k] == x;
        assert t[k] == x;
      }
      if i < |table| { assert t[i] == b; } else { assert t[|table|] == b; }
    }
  }

  lemma LatestPush(received: seq<Broadcast>, b: Broadcast, x: Broadcast)
    ensures IsLatest(received + [b], x) <==> x == b || (IsLatest(received, x) && x.cluster != b.cluster)
  {
    var all := received + [b];
    assert LatestAt(all, |received|) && all[|received|] == b;
    if i: nat :| LatestAt(all, i) && all[i] == x {
      if i < |received| {
        assert all[|received|] == b;
        forall j | i < j < |received| ensures received[j].cluster != received[i].cluster {
          assert all[j] == received[j];
        }
        assert LatestAt(received, i);
      }
    }
    if i: nat :| LatestAt(received, i) && received[i] == x {
      if x.cluster != b.cluster { assert LatestAt(all, i) && all[i] == x; }
    }
  }

  /** The table holds exactly the latest broadcast of each cluster, once. */
  lemma {:induction false} TableIsLatest(received: seq<Broadcast>)
    ensures OnePerCluster(Table(received))
    ensures forall x :: x in Table(received) <==> IsLatest(received, x)
  {
    if received == [] {
      forall x ensures !IsLatest(received, x) {}
    } else {
      var front, b := received[..|received| - 1], received[|received| - 1];
      TableIsLatest(front);
      NotedShape(Table(front), b);
      assert received == front + [b];
      forall x ensures x in Table(received) <==> IsLatest(received, x) {
        LatestPush(front, b, x);
      }
    }
  }

  // ---- choosing one -----------------------------------------------------------------------------

  /** A broadcast that the node may follow. */
  predicate Eligible(b: Broadcast, direction: int, minRssi: real) {
    b.direction == direction && b.rssi >= minRssi && !b.fullConvoy
  }

  /** An eligible broadcast of maximal signal strength, if there is any. */
  ghost predicate BestOf(choice: Option<Broadcast>, table: seq<Broadcast>, direction: int, minRssi: real) {
    match choice
    case None => forall x :: x in table ==> !Eligible(x, direction, minRssi)
    case Some(b) =>
      && b in table && Eligible(b, direction, minRssi)
      && forall x :: x in table && Eligible(x, direction, minRssi) ==> x.rssi <= b.rssi
  }

  predicate Descending(s: seq<Broadcast>) {
    forall i, j :: 0 <= i < j < |s| ==> s[i].rssi >= s[j].rssi
  }

  method CopyQualified(table: seq<Broadcast>, direction: int, minRssi: real) returns (q: seq<Broadcast>)
    ensures forall x :: x in q <==> x in table && x.direction == direction && x.rssi >= minRssi
  {
    q := [];
    var i := 0;
    while i < |table|
      invariant 0 <= i <= |table|
      invariant forall x :: x in q <==> x in table[..i] && x.direction == direction && x.rssi >= minRssi
    {
      assert table[..i + 1] == table[..i] + [table[i]];
      if table[i].direction == direction && table[i].rssi >= minRssi { q := q + [table[i]]; }
      i := i + 1;
    }
    assert table[..i] == table;
  }

  method InsertDescending(s: seq<Broadcast>, b: Broadcast) returns (r: seq<Broadcast>)
    requires Descending(s)
    ensures Descending(r) && multiset(r) == multiset(s) + multiset{b}
  {
    var i := 0;
    while i < |s| && s[i].rssi >= b.rssi
      invariant 0 <= i <= |s| && forall k :: 0 <= k < i ==> s[k].rssi >= b.rssi
    {
      i := i + 1;
    }
    r := s[..i] + [b] + s[i..];
    PutBetween(s, i, b);
  }

  lemma PutBetween(s: seq<Broadcast>, i: nat, b: Broadcast)
    requires i <= |s|
    ensures multiset(s[..i] + [b] + s[i..]) == multiset(s) + multiset{b}
  {
    assert s == s[..i] + s[i..];
    assert multiset(s) == multiset(s[..i]) + multiset(s[i..]);
  }

  /** std::sort in descending order of signal strength. */
  method SortDescending(s: seq<Broadcast>) returns (r: seq<Broadcast>)
    ensures Descending(r) && multiset(r) == multiset(s)
  {
    r := [];
    var i := 0;
    while i < |s|
      invariant 0 <= i <= |s| && Descending(r) && multiset(r) == multiset(s[..i])
    {
      r := InsertDescending(r, s[i]);
      assert s[..i + 1] == s[..i] + [s[i]];
      i := i + 1;
    }
    assert s[..i] == s;
  }

  /** Filter, sort, first entry whose convoy is not full. */
  method Choose(table: seq<Broadcast>, direction: int, minRssi: real) returns (choice: Option<Broadcast>)
    ensures BestOf(choice, table, direction, minRssi)
  {
    var q := CopyQualified(table, direction, minRssi);
    var sorted := SortDescending(q);
    assert forall x :: x in sorted <==> x in multiset(sorted);
    assert forall x :: x in q <==> x in multiset(q);
    var i := 0;
    while i < |sorted|
      invariant 0 <= i <= |sorted| && forall k :: 0 <= k < i ==> sorted[k].fullConvoy
    {
      if !sorted[i].fullConvoy {
        assert sorted[i] in q;
        forall x | x in table && Eligible(x, direction, minRssi) ensures x.rssi <= sorted[i].rssi {
          assert x in sorted;
          var k :| 0 <= k < |sorted| && sorted[k] == x;
        }
        return Some(sorted[i]);
      }
      i := i + 1;
    }
    forall x | x in table ensures !Eligible(x, direction, minRssi) {
      assert x.direction == direction && x.rssi >= minRssi ==> x in q && x in sorted;
    }
    return None;
  }
}
