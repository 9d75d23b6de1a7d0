/** Which readings become running records: a worker keeps a reading when its detector has no
    kept reading yet, or the last kept one is at least the store interval old. */
module Thinning {
  import opened Models

  /** A reading and the monotonic time of the batch that carried it. */
  datatype Stamped = Stamped(reading: DeviceReading, at: real)

  type Flow = seq<Stamped>

  const DEFAULT_STORE_INTERVAL := 60

  /** _store_intervals.get(detector_id, 60), each entry being max(1, configured). */
  function IntervalOf(intervals: map<int, int>, detectorId: int): int {
    if detectorId in intervals then intervals[detectorId] else DEFAULT_STORE_INTERVAL
  }

  /** The test in _persist_and_publish against _last_record_monotonic. */
  predicate Due(last: map<int, real>, intervals: map<int, int>, s: Stamped) {
    s.reading.detectorId in last ==>
      s.at - last[s.reading.detectorId] >= IntervalOf(intervals, s.reading.detectorId) as real
  }

  /** _last_record_monotonic after a flow of readings. */
  function LastAfter(last: map<int, real>, intervals: map<int, int>, flow: Flow): map<int, real>
    decreases |flow|
  {
    if |flow| == 0 then last
    else
      var s := flow[|flow| - 1];
      var before := LastAfter(last, intervals, flow[..|flow| - 1]);
      if Due(before, intervals, s) then before[s.reading.detectorId := s.at] else before
  }

  /** The readings that are recorded. */
  function Kept(last: map<int, real>, intervals: map<int, int>, flow: Flow): Flow
    decreases |flow|
  {
    if |flow| == 0 then []
    else
      var s := flow[|flow| - 1];
      Kept(last, intervals, flow[..|flow| - 1])
      + if Due(LastAfter(last, intervals, flow[..|flow| - 1]), intervals, s) then [s] else []
  }

  /* ---------- Greedy thinning of one detector's readings, the reference ---------- */

  function OfDetector(flow: Flow, detectorId: int): (f: Flow)
    ensures forall k :: 0 <= k < |f| ==> f[k].reading.detectorId == detectorId
    decreases |flow|
  {
    if |flow| == 0 then []
    else
      var s := flow[|flow| - 1];
      OfDetector(flow[..|flow| - 1], detectorId) + if s.reading.detectorId == detectorId then [s] else []
  }

  /** Take the first; skip everything closer to it than the interval; continue from the
      first that is not. */
  function Thin(flow: Flow, interval: int): Flow
    decreases |flow|
  {
    if |flow| == 0 then []
    else [flow[0]] + Thin(SkipClose(flow[1..], flow[0].at, interval), interval)
  }

  function SkipClose(flow: Flow, after: real, interval: int): (f: Flow)
    ensures |f| <= |flow|
    decreases |flow|
  {
    if |flow| == 0 then []
    else if flow[0].at - after >= interval as real then flow
    else SkipClose(flow[1..], after, interval)
  }

  /* ---------- The worker thins each detector greedily ---------- */

  /** The time of the last reading kept, if any. */
  function LastKept(flow: Flow, interval: int): Option<real> {
    var kept := Thin(flow, interval);
    if |kept| == 0 then None else Some(kept[|kept| - 1].at)
  }

  lemma {:induction false} SkipCloseExtend(flow: Flow, s: Stamped, after: real, interval: int)
    ensures SkipClose(flow + [s], after, interval)
         == if |SkipClose(flow, after, interval)| > 0 then SkipClose(flow, after, interval) + [s]
            else if s.at - after >= interval as real then [s] else []
    decreases |flow|
  {
    if |flow| == 0 {
      assert flow + [s] == [s];
      assert [s][1..] == [];
    } else {
      assert (flow + [s])[1..] == flow[1..] + [s];
      if flow[0].at - after < interval as real {
        SkipCloseExtend(flow[1..], s, after, interval);
      }
    }
  }

  predicate DueAfter(last: Option<real>, s: Stamped, interval: int) {
    last.None? || s.at - last.value >= interval as real
  }

  /** One more reading is kept iff it is due after the last one kept. */
  lemma {:induction false} ThinExtend(flow: Flow, s: Stamped, interval: int)
    ensures Thin(flow + [s], interval)
         == if DueAfter(LastKept(flow, interval), s, interval) then Thin(flow, interval) + [s] else Thin(flow, interval)
    decreases |flow|
  {
    if |flow| == 0 {
      assert flow + [s] == [s];
      assert [s][1..] == [];
    } else {
      var rest := SkipClose(flow[1..], flow[0].at, interval);
      assert (flow + [s])[1..] == flow[1..] + [s];
      SkipCloseExtend(flow[1..], s, flow[0].at, interval);
      if |rest| > 0 {
        ThinExtend(rest, s, interval);
        assert Thin(rest, interval) != [];
      } else {
        assert [s][1..] == [];
        assert Thin([s], interval) == [s];
      }
    }
  }

  /** _last_record_monotonic holds the time of the last reading kept for each detector. */
  ghost predicate LastMatches(last: map<int, real>, flow: Flow, detectorId: int, interval: int) {
    var kept := LastKept(flow, interval);
    (detectorId in last <==> kept.Some?) && (kept.Some? ==> last[detectorId] == kept.value)
  }

  lemma {:induction false} OfDetectorExtend(flow: Flow, s: Stamped, detectorId: int)
    ensures OfDetector(flow + [s], detectorId)
         == OfDetector(flow, detectorId) + if s.reading.detectorId == detectorId then [s] else []
  {
    assert (flow + [s])[..|flow|] == flow;
  }

  lemma {:induction false} DueMatches(last: map<int, real>, intervals: map<int, int>, flow: Flow, s: Stamped)
    requires LastMatches(last, flow, s.reading.detectorId, IntervalOf(intervals, s.reading.detectorId))
    ensures var interval := IntervalOf(intervals, s.reading.detectorId);
            && (Due(last, intervals, s) <==> DueAfter(LastKept(flow, interval), s, interval))
            && LastMatches(if Due(last, intervals, s) then last[s.reading.detectorId := s.at] else last,
                           flow + [s], s.reading.detectorId, interval)
  {
    ThinExtend(flow, s, IntervalOf(intervals, s.reading.detectorId));
  }

  /** What is kept, and the clock entries, are those of thinning a detector's readings. */
  ghost predicate InStep(kept: Flow, last: map<int, real>, flow: Flow, detectorId: int, interval: int) {
    && OfDetector(kept, detectorId) == Thin(OfDetector(flow, detectorId), interval)
    && LastMatches(last, OfDetector(flow, detectorId), detectorId, interval)
  }

  lemma {:induction false} OwnReadingKeepsStep(kept: Flow, last: map<int, real>, intervals: map<int, int>,
                                               flow: Flow, s: Stamped)
    requires InStep(kept, last, flow, s.reading.detectorId, IntervalOf(intervals, s.reading.detectorId))
    ensures InStep(kept + if Due(last, intervals, s) then [s] else [],
                   if Due(last, intervals, s) then last[s.reading.detectorId := s.at] else last,
                   flow + [s], s.reading.detectorId, IntervalOf(intervals, s.reading.detectorId))
  {
    var d := s.reading.detectorId;
    OfDetectorExtend(flow, s, d);
    OfDetectorExtend(kept, s, d);
    DueMatches(last, intervals, OfDetector(flow, d), s);
    ThinExtend(OfDetector(flow, d), s, IntervalOf(intervals, d));
    assert kept + [] == kept;
  }

  lemma {:induction false} OtherReadingKeepsStep(kept: Flow, last: map<int, real>, intervals: map<int, int>,
                                                 flow: Flow, s: Stamped, detectorId: int, interval: int)
    requires InStep(kept, last, flow, detectorId, interval) && s.reading.detectorId != detectorId
    ensures InStep(kept + if Due(last, intervals, s) then [s] else [],
                   if Due(last, intervals, s) then last[s.reading.detectorId := s.at] else last,
                   flow + [s], detectorId, interval)
  {
    OfDetectorExtend(flow, s, detectorId);
    OfDetectorExtend(kept, s, detectorId);
    assert kept + [] == kept;
    assert OfDetector(flow + [s], detectorId) == OfDetector(flow, detectorId);
    assert OfDetector(kept + [s], detectorId) == OfDetector(kept, detectorId);
  }

  /** Over any run, with any number of detectors interleaved, the records of a detector are
      the greedy thinning of its readings. */
  lemma {:induction false} RecordsAreThinning(intervals: map<int, int>, flow: Flow, detectorId: int)
    ensures InStep(Kept(map[], intervals, flow), LastAfter(map[], intervals, flow), flow,
                   detectorId, IntervalOf(intervals, detectorId))
    decreases |flow|
  {
    if |flow| > 0 {
      var init, s := flow[..|flow| - 1], flow[|flow| - 1];
      RecordsAreThinning(intervals, init, detectorId);
      assert flow == init + [s];
      var kept, last := Kept(map[], intervals, init), LastAfter(map[], intervals, init);
      if s.reading.detectorId == detectorId {
        OwnReadingKeepsStep(kept, last, intervals, init, s);
      } else {
        OtherReadingKeepsStep(kept, last, intervals, init, s, detectorId, IntervalOf(intervals, detectorId));
      }
    }
  }

  /* ---------- What greedy thinning guarantees ---------- */

  lemma {:induction false} SkipCloseFirst(flow: Flow, after: real, interval: int)
    ensures var f := SkipClose(flow, after, interval); |f| > 0 ==> f[0].at - after >= interval as real
    decreases |flow|
  {
    if |flow| > 0 && flow[0].at - after < interval as real {
      SkipCloseFirst(flow[1..], after, interval);
    }
  }

  /** Consecutive records are at least the interval apart. */
  lemma {:induction false} ThinApart(flow: Flow, interval: int, k: nat)
    requires k + 1 < |Thin(flow, interval)|
    ensures Thin(flow, interval)[k + 1].at - Thin(flow, interval)[k].at >= interval as real
    decreases |flow|
  {
    var rest := SkipClose(flow[1..], flow[0].at, interval);
    SkipCloseFirst(flow[1..], flow[0].at, interval);
    if k > 0 {
      ThinApart(rest, interval, k - 1);
    }
  }

  lemma {:induction false} ThinSpan(flow: Flow, interval: int, i: nat, j: nat)
    requires i <= j < |Thin(flow, interval)|
    ensures Thin(flow, interval)[j].at - Thin(flow, interval)[i].at >= ((j - i) * interval) as real
    decreases j
  {
    if i < j {
      ThinSpan(flow, interval, i, j - 1);
      ThinApart(flow, interval, j - 1);
      assert (j - i) * interval == (j - 1 - i) * interval + interval;
    }
  }

  /** Records i to j of a detector lie in a window of length span only if there are at most
      floor(span / interval) + 1 of them. */
  lemma {:induction false} WindowBound(flow: Flow, interval: int, i: nat, j: nat, span: real)
    requires interval > 0 && i <= j < |Thin(flow, interval)|
    requires Thin(flow, interval)[j].at - Thin(flow, interval)[i].at <= span
    ensures j - i + 1 <= (span / interval as real).Floor + 1
  {
    ThinSpan(flow, interval, i, j);
    assert ((j - i) * interval) as real == (j - i) as real * interval as real;
    DivideBound((j - i) as real, interval as real, span);
  }

  lemma {:induction false} DivideBound(n: real, d: real, span: real)
    requires d > 0.0 && n * d <= span
    ensures n <= span / d
  {
    assert (span / d) * d == span;
    CancelFactor(n, span / d, d);
  }

  lemma {:induction false} CancelFactor(n: real, q: real, d: real)
    requires d > 0.0 && n * d <= q * d
    ensures n <= q
  {}

  /** Every reading is recorded, or the last record before it is closer than the interval. */
  lemma {:induction false} SkippedAreClose(flow: Flow, interval: int, i: nat)
    requires i < |flow|
    ensures Thin(flow[..i + 1], interval)
         == Thin(flow[..i], interval)
            + if DueAfter(LastKept(flow[..i], interval), flow[i], interval) then [flow[i]] else []
  {
    ThinExtend(flow[..i], flow[i], interval);
    assert flow[..i + 1] == flow[..i] + [flow[i]];
  }

  /** Whatever else is polled, the first reading of a detector is recorded. */
  lemma {:induction false} FirstIsKept(intervals: map<int, int>, flow: Flow, detectorId: int)
    requires OfDetector(flow, detectorId) != []
    ensures var kept := OfDetector(Kept(map[], intervals, flow), detectorId);
            kept != [] && kept[0] == OfDetector(flow, detectorId)[0]
  {
    RecordsAreThinning(intervals, flow, detectorId);
  }

  lemma {:induction false} LastAfterConcat(last: map<int, real>, intervals: map<int, int>, a: Flow, b: Flow)
    ensures LastAfter(last, intervals, a + b) == LastAfter(LastAfter(last, intervals, a), intervals, b)
    decreases |b|
  {
    if |b| == 0 {
      assert a + b == a;
    } else {
      assert (a + b)[..|a + b| - 1] == a + b[..|b| - 1];
      LastAfterConcat(last, intervals, a, b[..|b| - 1]);
    }
  }

  lemma {:induction false} KeptConcat(last: map<int, real>, intervals: map<int, int>, a: Flow, b: Flow)
    ensures LastAfter(last, intervals, a + b) == LastAfter(LastAfter(last, intervals, a), intervals, b)
    ensures Kept(last, intervals, a + b)
         == Kept(last, intervals, a) + Kept(LastAfter(last, intervals, a), intervals, b)
    decreases |b|
  {
    LastAfterConcat(last, intervals, a, b);
    if |b| == 0 {
      assert a + b == a;
    } else {
      KeptConcat(last, intervals, a, b[..|b| - 1]);
      KeptConcatStep(last, intervals, a, b[..|b| - 1], b[|b| - 1]);
      assert b == b[..|b| - 1] + [b[|b| - 1]];
    }
  }

  lemma {:induction false} KeptConcatStep(
    last: map<int, real>, intervals: map<int, int>, a: Flow, front: Flow, s: Stamped)
    requires Kept(last, intervals, a + front)
          == Kept(last, intervals, a) + Kept(LastAfter(last, intervals, a), intervals, front)
    ensures Kept(last, intervals, a + (front + [s]))
         == Kept(last, intervals, a) + Kept(LastAfter(last, intervals, a), intervals, front + [s])
  {
    var mid := LastAfter(last, intervals, a);
    var x, y := Kept(last, intervals, a), Kept(mid, intervals, front);
    var z := KeptOf(LastAfter(mid, intervals, front), intervals, s);
    LastAfterConcat(last, intervals, a, front);
    KeptSnoc(last, intervals, a + front, s);
    KeptSnoc(mid, intervals, front, s);
    assert a + (front + [s]) == (a + front) + [s];
    assert (x + y) + z == x + (y + z);
  }

  /** What the last reading of a flow adds to the kept ones. */
  function KeptOf(last: map<int, real>, intervals: map<int, int>, s: Stamped): Flow {
    if Due(last, intervals, s) then [s] else []
  }

  lemma {:induction false} KeptSnoc(last: map<int, real>, intervals: map<int, int>, flow: Flow, s: Stamped)
    ensures Kept(last, intervals, flow + [s])
         == Kept(last, intervals, flow) + KeptOf(LastAfter(last, intervals, flow), intervals, s)
  {
    assert (flow + [s])[..|flow|] == flow;
  }
}
