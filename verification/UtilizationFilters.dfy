/**
 inet::utils::filters::UtilizationFilter: the utilization of a 0/1 signal, computed on line
 and emitted window by window. Times and values are reals.
 */
module UtilizationFilters {

  // ---- the signal and its integral ------------------------------------------------------------

  datatype Sample = Sample(time: real, value: real)

  /** Samples of a 0/1 signal in the order of time, from time 0 on. */
  ghost predicate SignalOk(samples: seq<Sample>) {
    && (forall i :: 0 <= i < |samples| ==>
          samples[i].time >= 0.0 && (samples[i].value == 0.0 || samples[i].value == 1.0))
    && (forall j :: 0 <= j < |samples| ==> NoneLater(samples, j))
  }

  ghost predicate NoneLater(samples: seq<Sample>, j: nat)
    requires j < |samples|
  {
    forall i :: 0 <= i < j ==> samples[i].time <= samples[j].time
  }

  /** The integral of a 0/1 signal from time 0 to t, which is the time it was 1: the signal is 0
      at first and keeps each sampled value. */
  ghost function Area(samples: seq<Sample>, t: real): (a: real) {
    if samples == [] then 0.0
    else
      var k := |samples| - 1;
      if t <= samples[k].time then Area(samples[..k], t)
      else Area(samples[..k], samples[k].time) + (if samples[k].value == 1.0 then t - samples[k].time else 0.0)
  }

  /** The value and the time of the latest sample. */
  ghost function Current(samples: seq<Sample>): (s: Sample) {
    if samples == [] then Sample(0.0, 0.0) else samples[|samples| - 1]
  }

  lemma SignalFront(samples: seq<Sample>)
    requires SignalOk(samples) && samples != []
    ensures SignalOk(samples[..|samples| - 1])
  {
    var front := samples[..|samples| - 1];
    forall j | 0 <= j < |front| ensures NoneLater(front, j) { assert NoneLater(samples, j); }
  }

  lemma {:induction false} AreaFromZero(samples: seq<Sample>)
    requires SignalOk(samples)
    ensures Area(samples, 0.0) == 0.0
  {
    if samples != [] {
      SignalFront(samples);
      AreaFromZero(samples[..|samples| - 1]);
    }
  }

  /** A later sample does not change the integral up to an earlier time. */
  lemma AreaPush(samples: seq<Sample>, s: Sample, t: real)
    requires t <= s.time
    ensures Area(samples + [s], t) == Area(samples, t)
  {
    assert (samples + [s])[..|samples|] == samples;
  }

  /** Behind the latest sample the integral grows with its value. */
  lemma AreaGrows(samples: seq<Sample>, t: real, u: real)
    requires SignalOk(samples) && Current(samples).time <= t <= u
    ensures Area(samples, u) == Area(samples, t) + Current(samples).value * (u - t)
  {
    if samples != [] {
      var s := Current(samples);
      assert s.value == 1.0 ==> s.value * (u - t) == u - t;
      assert s.value == 0.0 ==> s.value * (u - t) == 0.0;
    }
  }

  /** The signal lies between 0 and 1, so its integral grows by at most the time passed. */
  lemma {:induction false} AreaBounds(samples: seq<Sample>, t: real, u: real)
    requires SignalOk(samples) && t <= u
    ensures 0.0 <= Area(samples, u) - Area(samples, t) <= u - t
    decreases |samples|
  {
    if samples != [] {
      var k := |samples| - 1;
      var front, s := samples[..k], samples[k];
      SignalFront(samples);
      if u <= s.time {
        AreaBounds(front, t, u);
      } else if t <= s.time {
        AreaBounds(front, t, s.time);
      }
    }
  }

  // ---- windows ------------------------------------------------------------------------------------

  datatype Window = Window(from: real, to: real, utilization: real)

  function Length(w: Window): real {
    w.to - w.from
  }

  /** The windows cover the time from 0 to end without gap or overlap. */
  ghost predicate Tiles(windows: seq<Window>, end: real) {
    if windows == [] then end == 0.0
    else
      var k := |windows| - 1;
      windows[k].from <= windows[k].to == end && Tiles(windows[..k], windows[k].from)
  }

  /** A window reports the mean of the signal over its length. */
  ghost predicate Reports(w: Window, samples: seq<Sample>) {
    && 0.0 <= w.utilization <= 1.0
    && w.utilization * Length(w) == Area(samples, w.to) - Area(samples, w.from)
  }

  ghost predicate AllReport(windows: seq<Window>, samples: seq<Sample>) {
    windows == [] || (Reports(windows[|windows| - 1], samples) && AllReport(windows[..|windows| - 1], samples))
  }

  /** Utilization times length, summed over the windows. */
  ghost function Total(windows: seq<Window>): (sum: real) {
    if windows == [] then 0.0
    else
      var k := |windows| - 1;
      Total(windows[..k]) + windows[k].utilization * Length(windows[k])
  }

  lemma {:induction false} TotalIsArea(windows: seq<Window>, samples: seq<Sample>, end: real)
    requires SignalOk(samples) && Tiles(windows, end) && AllReport(windows, samples)
    ensures Total(windows) == Area(samples, end)
    decreases |windows|
  {
    if windows == [] {
      AreaFromZero(samples);
    } else {
      var k := |windows| - 1;
      assert Reports(windows[k], samples);
      TotalIsArea(windows[..k], samples, windows[k].from);
    }
  }

  lemma {:induction false} TilesBefore(windows: seq<Window>, end: real, i: nat)
    requires Tiles(windows, end) && i < |windows|
    ensures windows[i].from <= windows[i].to <= end && 0.0 <= windows[i].from
    ensures i == 0 ==> windows[i].from == 0.0
    ensures i > 0 ==> windows[i].from == windows[i - 1].to
    decreases |windows|
  {
    var k := |windows| - 1;
    if i < k {
      TilesBefore(windows[..k], windows[k].from, i);
    } else if k > 0 {
      TilesBefore(windows[..k], windows[k].from, k - 1);
    }
  }

  lemma TilesPush(windows: seq<Window>, w: Window)
    requires Tiles(windows, w.from) && w.from <= w.to
    ensures Tiles(windows + [w], w.to)
  {
    assert (windows + [w])[..|windows|] == windows;
  }

  /** Windows that ended before a sample still report the signal with it. */
  lemma {:induction false} ReportsPush(windows: seq<Window>, samples: seq<Sample>, s: Sample, end: real)
    requires Tiles(windows, end) && AllReport(windows, samples) && end <= s.time
    ensures AllReport(windows, samples + [s])
  {
    if windows != [] {
      var w := windows[|windows| - 1];
      ReportsPush(windows[..|windows| - 1], samples, s, w.from);
      AreaPush(samples, s, w.to);
      AreaPush(samples, s, w.from);
    }
  }

  lemma Quotient(total: real, length: real)
    requires length > 0.0 && 0.0 <= total <= length
    ensures 0.0 <= total / length <= 1.0 && (total / length) * length == total
  {}

  lemma TotalBounds(samples: seq<Sample>, from: real, to: real, total: real)
    requires SignalOk(samples) && from <= to && total == Area(samples, to) - Area(samples, from)
    ensures 0.0 <= total <= to - from
  {
    AreaBounds(samples, from, to);
  }

  lemma ReportsWhen(samples: seq<Sample>, w: Window, total: real)
    requires total == Area(samples, w.to) - Area(samples, w.from)
    requires 0.0 <= w.utilization <= 1.0 && w.utilization * (w.to - w.from) == total
    ensures Reports(w, samples)
  {}

  lemma AllReportPush(windows: seq<Window>, w: Window, samples: seq<Sample>)
    requires AllReport(windows, samples) && Reports(w, samples)
    ensures AllReport(windows + [w], samples)
  {
    assert (windows + [w])[..|windows|] == windows;
  }

  /** One more window that reports the total since the last one. */
  lemma WindowsPush(windows: seq<Window>, w: Window, samples: seq<Sample>, total: real)
    requires Tiles(windows, w.from) && AllReport(windows, samples) && w.from <= w.to
    requires total == Area(samples, w.to) - Area(samples, w.from)
    requires 0.0 <= w.utilization <= 1.0 && w.utilization * (w.to - w.from) == total
    ensures Tiles(windows + [w], w.to) && AllReport(windows + [w], samples)
  {
    ReportsWhen(samples, w, total);
    AllReportPush(windows, w, samples);
    TilesPush(windows, w);
  }

  lemma MeanReported(windows: seq<Window>, from: real, to: real, u: real, samples: seq<Sample>, total: real)
    requires Tiles(windows, from) && AllReport(windows, samples) && from <= to
    requires total == Area(samples, to) - Area(samples, from) && 0.0 <= u <= 1.0 && u * (to - from) == total
    ensures Tiles(windows + [Window(from, to, u)], to) && AllReport(windows + [Window(from, to, u)], samples)
  {
    WindowsPush(windows, Window(from, to, u), samples, total);
  }

  /** Line 316. */
  method ComputeUtilization(total: real, from: real, to: real) returns (u: real)
    requires from <= to && 0.0 <= total <= to - from
    ensures 0.0 <= u <= 1.0 && u * (to - from) == total
  {
    if from < to { Quotient(total, to - from); }
    u := if to == from then 0.0 else total / (to - from);
  }

  // ---- when windows are fired -----------------------------------------------------------------------

  ghost predicate Spans(w: Window, from: real, to: real) {
    w.from == from && w.to == to
  }

  /** From index k on, every window is one interval long. */
  ghost predicate Whole(windows: seq<Window>, k: nat, interval: real) {
    forall j :: k <= j < |windows| ==> Length(windows[j]) == interval
  }

  /** What a sample fires that comes at least an interval after the last window: that interval, and
      then every further whole interval, or one window up to an interval before the sample. */
  ghost predicate Caught(
    before: seq<Window>, after: seq<Window>, last: real, now: real, interval: real, intermediate: bool)
  {
    && before <= after && |before| < |after| && Spans(after[|before|], last, last + interval)
    && (intermediate ==>
          Whole(after, |before|, interval) && after[|after| - 1].to <= now < after[|after| - 1].to + interval)
    && (!intermediate ==>
          if last + interval + interval <= now
          then |after| == |before| + 2 && Spans(after[|before| + 1], last + interval, now - interval)
          else |after| == |before| + 1)
  }

  /** What the end fires: nothing if a window ends there, else a last window up to the end, behind
      one whole interval, or all of them, if there is time for it. */
  ghost predicate Closed(
    before: seq<Window>, after: seq<Window>, last: real, end: real, interval: real, intermediate: bool)
  {
    if end <= last then after == before
    else
      && before <= after && |before| < |after| && after[|after| - 1].to == end
      && if end <= last + interval then |after| == |before| + 1
         else
           && |before| + 1 < |after| && Spans(after[|before|], last, last + interval)
           && (intermediate ==>
                 Whole(after[..|after| - 1], |before|, interval) && Length(after[|after| - 1]) <= interval)
           && (!intermediate ==> |after| == |before| + 2)
  }

  /** As many samples as the limit, the last one at the end of the window. */
  ghost predicate Filled(w: Window, samples: seq<Sample>, j: nat, limit: int) {
    0 < limit <= j + 1 <= |samples| && samples[j].time == w.to && w.from <= samples[j + 1 - limit].time
  }

  /** The last n samples came after the last window. */
  ghost predicate Recent(samples: seq<Sample>, n: int, last: real) {
    n <= |samples| && (n > 0 ==> last <= samples[|samples| - n].time)
  }

  /** A sample one interval behind the end of the window. */
  ghost predicate Overtaken(w: Window, samples: seq<Sample>, j: nat, interval: real) {
    j < |samples| && samples[j].time == w.to + interval
  }

  /** Why a window was fired before the end: an interval is over, the samples are as many as the
      limit, or, without intermediate values, no sample came for long. */
  ghost predicate Due(w: Window, samples: seq<Sample>, interval: real, limit: int, intermediate: bool) {
    || Length(w) == interval
    || (exists j: nat :: Filled(w, samples, j, limit))
    || (!intermediate && exists j: nat :: Overtaken(w, samples, j, interval))
  }

  ghost predicate AllDue(windows: seq<Window>, samples: seq<Sample>, interval: real, limit: int, intermediate: bool) {
    forall k :: 0 <= k < |windows| ==> Due(windows[k], samples, interval, limit, intermediate)
  }

  lemma DuePush(w: Window, samples: seq<Sample>, s: Sample, interval: real, limit: int, intermediate: bool)
    requires Due(w, samples, interval, limit, intermediate)
    ensures Due(w, samples + [s], interval, limit, intermediate)
  {
    if j: nat :| Filled(w, samples, j, limit) { assert Filled(w, samples + [s], j, limit); }
    if j: nat :| Overtaken(w, samples, j, interval) { assert Overtaken(w, samples + [s], j, interval); }
  }

  lemma AllDuePush(
    windows: seq<Window>, samples: seq<Sample>, s: Sample, interval: real, limit: int, intermediate: bool)
    requires AllDue(windows, samples, interval, limit, intermediate)
    ensures AllDue(windows, samples + [s], interval, limit, intermediate)
  {
    forall k | 0 <= k < |windows| ensures Due(windows[k], samples + [s], interval, limit, intermediate) {
      DuePush(windows[k], samples, s, interval, limit, intermediate);
    }
  }

  lemma FilledIsDue(
    windows: seq<Window>, w: Window, samples: seq<Sample>, s: Sample, interval: real, limit: int, intermediate: bool)
    requires AllDue(windows, samples + [s], interval, limit, intermediate) && limit > 0
    requires Recent(samples, limit - 1, w.from) && w.from <= w.to == s.time
    ensures AllDue(windows + [w], samples + [s], interval, limit, intermediate)
  {
    assert Filled(w, samples + [s], |samples|, limit);
  }

  /** Where the windows from index k on end. */
  function LastEnd(windows: seq<Window>, k: nat, start: real): real {
    if k < |windows| then windows[|windows| - 1].to else start
  }

  /** The windows of a sample and those before it are due. */
  lemma CaughtIsDue(
    before: seq<Window>, after: seq<Window>, last: real, samples: seq<Sample>, s: Sample, interval: real, limit: int,
    intermediate: bool)
    requires AllDue(before, samples, interval, limit, intermediate)
    requires Caught(before, after, last, s.time, interval, intermediate)
    ensures AllDue(after, samples + [s], interval, limit, intermediate)
  {
    forall k | 0 <= k < |after| ensures Due(after[k], samples + [s], interval, limit, intermediate) {
      if k < |before| {
        assert after[k] == before[k];
        DuePush(after[k], samples, s, interval, limit, intermediate);
      } else if k > |before| && !intermediate {
        assert Overtaken(after[k], samples + [s], |samples|, interval);
      }
    }
  }

  // ---- the filter -----------------------------------------------------------------------------------

  class UtilizationFilter {
    const interval: real
    const numValueLimit: int
    const emitIntermediateValues: bool
    var lastSignalTime: real
    var totalValueTime: real
    var lastValue: real
    var totalValue: real
    var numValues: int
    /** What the filter has fired. */
    var windows: seq<Window>
    /** The samples processed so far. */
    ghost var samples: seq<Sample>

    /** The windows report the signal up to lastSignalTime, and totalValue is the rest. */
    ghost predicate Sound()
      reads this
    {
      && interval > 0.0 && SignalOk(samples)
      && 0.0 <= lastSignalTime <= totalValueTime && Current(samples).time <= totalValueTime
      && lastValue == Current(samples).value
      && totalValue == Area(samples, totalValueTime) - Area(samples, lastSignalTime)
      && Tiles(windows, lastSignalTime) && AllReport(windows, samples)
    }

    ghost predicate Valid()
      reads this
    {
      && Sound() && totalValueTime <= lastSignalTime + interval && 0 <= numValues < numValueLimit
      && Recent(samples, numValues, lastSignalTime)
      && AllDue(windows, samples, interval, numValueLimit, emitIntermediateValues)
    }

    constructor (interval: real, numValueLimit: int, emitIntermediateValues: bool)
      requires interval > 0.0 && numValueLimit > 0
      ensures Valid() && samples == [] && windows == [] && lastSignalTime == 0.0 && totalValueTime == 0.0
      ensures this.interval == interval && this.numValueLimit == numValueLimit
      ensures this.emitIntermediateValues == emitIntermediateValues
    {
      this.interval, this.numValueLimit, this.emitIntermediateValues := interval, numValueLimit, emitIntermediateValues;
      lastSignalTime, totalValueTime, lastValue, totalValue, numValues := 0.0, 0.0, 0.0, 0.0, 0;
      windows, samples := [], [];
    }

    method UpdateTotalValue(time: real)
      requires Sound() && totalValueTime <= time
      modifies this`totalValue, this`totalValueTime
      ensures Sound() && totalValueTime == time
    {
      AreaGrows(samples, totalValueTime, time);
      totalValue := totalValue + lastValue * (time - totalValueTime);
      totalValueTime := time;
    }

    /** Fires the window that ends at the time up to which the total was computed. */
    method EmitUtilization(time: real) returns (utilization: real)
      requires Sound() && time == totalValueTime
      modifies this`lastSignalTime, this`totalValue, this`numValues, this`windows
      ensures Sound() && lastSignalTime == time && numValues == 0
      ensures windows == old(windows) + [Window(old(lastSignalTime), time, utilization)]
    {
      utilization := CurrentUtilization(time);
      var w := Window(lastSignalTime, time, utilization);
      windows := windows + [w];
      lastSignalTime := time;
      totalValue := 0.0;
      numValues := 0;
    }

    /** Lines 316-318, with the assertion on the value: the mean since the last window. */
    method CurrentUtilization(time: real) returns (u: real)
      requires Sound() && time == totalValueTime
      ensures 0.0 <= u <= 1.0
      ensures var w := Window(lastSignalTime, time, u); Tiles(windows + [w], time) && AllReport(windows + [w], samples)
    {
      TotalBounds(samples, lastSignalTime, time, totalValue);
      u := ComputeUtilization(totalValue, lastSignalTime, time);
      assert 0.0 <= u <= 1.0;
      MeanReported(windows, lastSignalTime, time, u, samples, totalValue);
    }

    /** Lines 295-298: whole windows of one interval each, as long as they end by now. */
    method EmitWhole(now: real)
      requires Sound() && totalValueTime <= lastSignalTime + interval && totalValueTime <= now && lastSignalTime <= now
      modifies this`totalValue, this`totalValueTime, this`lastSignalTime, this`numValues, this`windows
      ensures Sound() && totalValueTime <= now && lastSignalTime <= now < lastSignalTime + interval
      ensures totalValueTime <= lastSignalTime + interval && (old(numValues) == 0 ==> numValues == 0)
      ensures old(windows) <= windows && Whole(windows, |old(windows)|, interval)
      ensures lastSignalTime == LastEnd(windows, |old(windows)|, old(lastSignalTime))
    {
      while lastSignalTime + interval <= now
        invariant Sound() && totalValueTime <= lastSignalTime + interval && totalValueTime <= now
        invariant lastSignalTime <= now && (old(numValues) == 0 ==> numValues == 0)
        invariant old(windows) <= windows && Whole(windows, |old(windows)|, interval)
        invariant lastSignalTime == LastEnd(windows, |old(windows)|, old(lastSignalTime))
        decreases ((now - lastSignalTime) / interval).Floor
      {
        OneFewer(now - lastSignalTime, interval);
        EmitNext();
      }
    }

    /** The next window of one interval. */
    method EmitNext()
      requires Sound() && totalValueTime <= lastSignalTime + interval
      modifies this`totalValue, this`totalValueTime, this`lastSignalTime, this`numValues, this`windows
      ensures Sound() && totalValueTime == lastSignalTime == old(lastSignalTime) + interval && numValues == 0
      ensures |windows| == |old(windows)| + 1 && windows[..|old(windows)|] == old(windows)
      ensures Spans(windows[|old(windows)|], old(lastSignalTime), lastSignalTime)
    {
      UpdateTotalValue(lastSignalTime + interval);
      var _ := EmitUtilization(lastSignalTime + interval);
    }

    /** A 0/1 sample at the current time. */
    method Process(now: real, value: real)
      requires Valid() && totalValueTime <= now && (value == 0.0 || value == 1.0)
      modifies this
      ensures Valid() && totalValueTime == now && samples == old(samples) + [Sample(now, value)]
      ensures old(numValues) + 1 == numValueLimit ==>
                && |windows| == |old(windows)| + 1 && windows[..|old(windows)|] == old(windows)
                && Spans(windows[|old(windows)|], old(lastSignalTime), now) && numValues == 0
      ensures old(numValues) + 1 < numValueLimit && now < old(lastSignalTime) + interval ==>
                windows == old(windows) && lastSignalTime == old(lastSignalTime) && numValues == old(numValues) + 1
      ensures old(numValues) + 1 < numValueLimit && old(lastSignalTime) + interval <= now ==>
                && Caught(old(windows), windows, old(lastSignalTime), now, interval, emitIntermediateValues)
                && numValues == 0
    {
      numValues := numValues + 1;
      assert numValues <= numValueLimit;
      if numValueLimit > 0 && numValues == numValueLimit {
        EmitFilled(now, value);
      } else if lastSignalTime + interval <= now {
        CatchUp(now);
        CaughtIsDue(old(windows), windows, old(lastSignalTime), samples, Sample(now, value), interval, numValueLimit,
                    emitIntermediateValues);
      } else {
        UpdateTotalValue(now);
        AllDuePush(windows, samples, Sample(now, value), interval, numValueLimit, emitIntermediateValues);
      }
      Take(now, value);
    }

    /** Lines 288-289: the window ends with this sample. */
    method EmitFilled(now: real, ghost value: real)
      requires Sound() && totalValueTime <= now && numValues == numValueLimit > 0
      requires Recent(samples, numValues - 1, lastSignalTime)
      requires AllDue(windows, samples, interval, numValueLimit, emitIntermediateValues)
      modifies this`totalValue, this`totalValueTime, this`lastSignalTime, this`numValues, this`windows
      ensures Sound() && totalValueTime == lastSignalTime == now && numValues == 0
      ensures |windows| == |old(windows)| + 1 && windows[..|old(windows)|] == old(windows)
      ensures Spans(windows[|old(windows)|], old(lastSignalTime), now)
      ensures AllDue(windows, samples + [Sample(now, value)], interval, numValueLimit, emitIntermediateValues)
    {
      ghost var s := Sample(now, value);
      UpdateTotalValue(now);
      var u := EmitUtilization(now);
      AllDuePush(old(windows), samples, s, interval, numValueLimit, emitIntermediateValues);
      FilledIsDue(old(windows), Window(old(lastSignalTime), now, u), samples, s, interval, numValueLimit,
                  emitIntermediateValues);
    }

    /** Lines 292-306: no window was fired for an interval or longer. */
    method CatchUp(now: real)
      requires Sound() && totalValueTime <= now && lastSignalTime + interval <= now
      requires totalValueTime <= lastSignalTime + interval
      modifies this`totalValue, this`totalValueTime, this`lastSignalTime, this`numValues, this`windows
      ensures Sound() && totalValueTime == now <= lastSignalTime + interval && numValues == 0
      ensures Caught(old(windows), windows, old(lastSignalTime), now, interval, emitIntermediateValues)
    {
      EmitNext();
      if emitIntermediateValues {
        EmitWhole(now);
      } else if lastSignalTime + interval <= now {
        UpdateTotalValue(now - interval);
        var _ := EmitUtilization(now - interval);
      }
      UpdateTotalValue(now);
    }

    /** The new value holds from now on. */
    method Take(now: real, value: real)
      requires Sound() && totalValueTime == now <= lastSignalTime + interval && (value == 0.0 || value == 1.0)
      requires 0 <= numValues < numValueLimit && Recent(samples + [Sample(now, value)], numValues, lastSignalTime)
      requires AllDue(windows, samples + [Sample(now, value)], interval, numValueLimit, emitIntermediateValues)
      modifies this`lastValue, this`samples
      ensures Valid() && samples == old(samples) + [Sample(now, value)]
    {
      SignalPush(samples, Sample(now, value));
      ReportsPush(windows, samples, Sample(now, value), lastSignalTime);
      AreaPush(samples, Sample(now, value), totalValueTime);
      AreaPush(samples, Sample(now, value), lastSignalTime);
      lastValue, samples := value, samples + [Sample(now, value)];
    }

    /** Lines 338-342: whole windows that end before now. */
    method EmitBefore(now: real)
      requires Sound() && totalValueTime <= lastSignalTime + interval && totalValueTime <= now && lastSignalTime < now
      modifies this`totalValue, this`totalValueTime, this`lastSignalTime, this`numValues, this`windows
      ensures Sound() && totalValueTime <= now && lastSignalTime < now <= lastSignalTime + interval
      ensures old(windows) <= windows && Whole(windows, |old(windows)|, interval)
    {
      while lastSignalTime + interval < now
        invariant Sound() && totalValueTime <= lastSignalTime + interval && totalValueTime <= now
        invariant lastSignalTime < now && old(windows) <= windows && Whole(windows, |old(windows)|, interval)
        decreases ((now - lastSignalTime) / interval).Floor
      {
        OneFewer(now - lastSignalTime, interval);
        EmitNext();
      }
    }

    /** At the end the windows tile all the time and add up to the signal's integral. */
    method Finish(now: real)
      requires Valid() && totalValueTime <= now
      modifies this
      ensures samples == old(samples) && Sound() && lastSignalTime == now
      ensures Closed(old(windows), windows, old(lastSignalTime), now, interval, emitIntermediateValues)
      ensures Tiles(windows, now) && AllReport(windows, samples) && Total(windows) == Area(samples, now)
    {
      if lastSignalTime < now {
        if lastSignalTime + interval < now {
          EmitNext();
          if emitIntermediateValues { EmitBefore(now); }
        }
        UpdateTotalValue(now);
        var _ := EmitUtilization(now);
      }
      TotalIsArea(windows, samples, now);
    }
  }

  lemma SignalPush(samples: seq<Sample>, s: Sample)
    requires SignalOk(samples) && Current(samples).time <= s.time && 0.0 <= s.time && (s.value == 0.0 || s.value == 1.0)
    ensures SignalOk(samples + [s]) && Current(samples + [s]) == s
  {
    var all, k := samples + [s], |samples|;
    forall j | 0 <= j < |all| ensures NoneLater(all, j) {
      if j < k { assert NoneLater(samples, j); } else if k > 0 { assert NoneLater(samples, k - 1); }
    }
  }

  lemma OneFewer(x: real, i: real)
    requires i > 0.0 && x >= i
    ensures 0 <= ((x - i) / i).Floor < (x / i).Floor
  {
    var p, q := (x - i) / i, x / i;
    assert p * i == x - i && q * i == x;
    Cancel(q - p - 1.0, i);
    Cancel(p, i);
  }

  lemma Cancel(d: real, i: real)
    requires i > 0.0
    ensures d * i == 0.0 ==> d == 0.0
    ensures d * i >= 0.0 ==> d >= 0.0
  {}

  lemma NextSample(samples: seq<Sample>, i: nat)
    requires SignalOk(samples) && i < |samples|
    ensures samples[..i] + [Sample(samples[i].time, samples[i].value)] == samples[..i + 1]
    ensures (if i == 0 then 0.0 else samples[i - 1].time) <= samples[i].time
    ensures samples[i].value == 0.0 || samples[i].value == 1.0
  {
    assert NoneLater(samples, i);
  }

  lemma TilesEnd(windows: seq<Window>, end: real)
    requires Tiles(windows, end)
    ensures end == LastEnd(windows, 0, 0.0)
  {}

  /** A whole run: samples at non-decreasing times, then the end. */
  method Run(samples: seq<Sample>, end: real, interval: real, numValueLimit: int, emitIntermediateValues: bool)
    returns (windows: seq<Window>, early: nat)
    requires interval > 0.0 && numValueLimit > 0 && SignalOk(samples) && Current(samples).time <= end && 0.0 <= end
    ensures Tiles(windows, end) && AllReport(windows, samples) && Total(windows) == Area(samples, end)
    ensures early <= |windows| && AllDue(windows[..early], samples, interval, numValueLimit, emitIntermediateValues)
    ensures Closed(windows[..early], windows, LastEnd(windows[..early], 0, 0.0), end, interval, emitIntermediateValues)
  {
    var filter := new UtilizationFilter(interval, numValueLimit, emitIntermediateValues);
    var i := 0;
    while i < |samples|
      invariant 0 <= i <= |samples| && fresh(filter) && filter.Valid() && filter.samples == samples[..i]
      invariant filter.totalValueTime == if i == 0 then 0.0 else samples[i - 1].time
      invariant filter.interval == interval && filter.numValueLimit == numValueLimit
      invariant filter.emitIntermediateValues == emitIntermediateValues
    {
      NextSample(samples, i);
      filter.Process(samples[i].time, samples[i].value);
      i := i + 1;
    }
    assert samples[..i] == samples;
    early := |filter.windows|;
    ghost var fired := filter.windows;
    TilesEnd(fired, filter.lastSignalTime);
    filter.Finish(end);
    windows := filter.windows;
    assert windows[..early] == fired;
  }
}
