/**
  The conversion of the EVENTS table into the EVENTS tree (`convertToROOT`): a
  single forward pass that keeps the first time tag and the previous time tag and
  trigger count, and fills one tree row per event.
*/
module EventMetrics {
  import opened Wrappers

  /** Width of the FPGA time-tag counter, in bits. */
  const FpgaClockBit: nat := 40

  function Pow2(n: nat): (p: nat)
    ensures p > 0
  {
    if n == 0 then 1 else 2 * Pow2(n - 1)
  }

  /** 2^FpgaClockBit, added to the elapsed time on the step where the counter wrapped. */
  const WrapSpan: int := Pow2(FpgaClockBit)

  /** The wrap correction is 2^40. */
  lemma WrapSpanValue()
    ensures WrapSpan == 0x100_0000_0000
  {
    Pow2Add(5, 5);
    Pow2Add(10, 10);
    Pow2Add(20, 20);
    assert Pow2(5) == 32;
  }

  lemma {:induction false} Pow2Add(a: nat, b: nat)
    ensures Pow2(a + b) == Pow2(a) * Pow2(b)
    decreases a
  {
    if a > 0 {
      Pow2Add(a - 1, b);
    }
  }

  /** One row of the EVENTS table. */
  datatype EventRecord = EventRecord(timeTag: int, triggerCount: int, phaMax: int, baseline: int)

  /**
    One entry of the EVENTS tree. The tree declares timeTag, timeTagElapse,
    deltaTimeTag and deltaTriggerCount as unsigned 64-bit branches and phaMax and
    baseline as 32-bit ones; the model keeps the mathematical values, so a negative
    delta here is what the tree stores as its two's-complement bit pattern.
  */
  datatype TreeRow = TreeRow(
    timeTag: int,
    timeTagElapse: int,
    deltaTimeTag: int,
    deltaTriggerCount: int,
    phaMax: int,
    baseline: int)

  /** The loop's running state: the first time tag, the previous time tag and trigger count. */
  datatype Deriver = Deriver(timeTag0: int, timeTagPrev: int, triggerCountPrev: int)

  /** Before the loop both previous values are those of the first event. */
  function Start(first: EventRecord): Deriver {
    Deriver(first.timeTag, first.timeTag, first.triggerCount)
  }

  /** One iteration of the loop: the state for the next event and the row filled for e. */
  function Step(st: Deriver, e: EventRecord): (Deriver, TreeRow) {
    var elapse := e.timeTag - st.timeTag0 + (if e.timeTag < st.timeTagPrev then WrapSpan else 0);
    var row := TreeRow(e.timeTag, elapse, e.timeTag - st.timeTagPrev,
                       e.triggerCount - st.triggerCountPrev, e.phaMax, e.baseline);
    (Deriver(st.timeTag0, e.timeTag, e.triggerCount), row)
  }

  /** The state after, and the rows filled while, stepping through evs from st. */
  function Run(st: Deriver, evs: seq<EventRecord>): (r: (Deriver, seq<TreeRow>))
    ensures |r.1| == |evs|
    decreases |evs|
  {
    if evs == [] then (st, [])
    else
      var prev := Run(st, evs[..|evs| - 1]);
      var next := Step(prev.0, evs[|evs| - 1]);
      (next.0, prev.1 + [next.1])
  }

  /** The rows of the EVENTS tree built from a non-empty event table. */
  function Derive(evs: seq<EventRecord>): (rows: seq<TreeRow>)
    requires |evs| > 0
    ensures |rows| == |evs|
  {
    Run(Start(evs[0]), evs).1
  }

  /** The state the loop holds when it reaches event i: that of event i - 1, or st at the start. */
  function StateBefore(st: Deriver, evs: seq<EventRecord>, i: nat): Deriver
    requires i < |evs|
  {
    if i == 0 then st else Deriver(st.timeTag0, evs[i - 1].timeTag, evs[i - 1].triggerCount)
  }

  /** The tree being filled: an append-only sequence of rows. */
  class EventTree {
    var rows: seq<TreeRow>

    constructor ()
      ensures rows == []
    {
      rows := [];
    }

    method Fill(row: TreeRow)
      modifies this
      ensures rows == old(rows) + [row]
    {
      rows := rows + [row];
    }
  }

  datatype ConvertError = EmptyEventTable

  /**
    convertToROOT: fills a fresh tree with one row per event. Reading the first
    event fails on an empty table.
  */
  method ConvertToRoot(events: seq<EventRecord>) returns (r: Result<seq<TreeRow>, ConvertError>)
    ensures r.Failure? <==> events == []
    ensures r.Success? ==> r.value == Derive(events)
  {
    var tree := new EventTree();
    if |events| == 0 {
      return Failure(EmptyEventTable);
    }
    var timeTag0 := events[0].timeTag;
    var timeTagPrev := timeTag0;
    var triggerCount0 := events[0].triggerCount;
    var triggerCountPrev := triggerCount0;
    var i := 0;
    while i < |events|
      invariant 0 <= i <= |events|
      invariant Run(Start(events[0]), events[..i]) == (Deriver(timeTag0, timeTagPrev, triggerCountPrev), tree.rows)
    {
      var evt := events[i];
      var timeTag := evt.timeTag;
      var timeTagElapse := evt.timeTag - timeTag0;
      if evt.timeTag < timeTagPrev {
        timeTagElapse := timeTagElapse + WrapSpan;
      }
      var deltaTimeTag := evt.timeTag - timeTagPrev;
      timeTagPrev := evt.timeTag;
      var deltaTriggerCount := evt.triggerCount - triggerCountPrev;
      triggerCountPrev := evt.triggerCount;
      tree.Fill(TreeRow(timeTag, timeTagElapse, deltaTimeTag, deltaTriggerCount, evt.phaMax, evt.baseline));
      assert events[..i + 1][..i] == events[..i];
      i := i + 1;
    }
    assert events[..i] == events;
    return Success(tree.rows);
  }

  /** Row i of a run is the step from the state left by event i - 1. */
  lemma {:induction false} RunRows(st: Deriver, evs: seq<EventRecord>)
    ensures evs != [] ==> Run(st, evs).0 == Deriver(st.timeTag0, evs[|evs| - 1].timeTag, evs[|evs| - 1].triggerCount)
    ensures evs == [] ==> Run(st, evs).0 == st
    ensures forall i :: 0 <= i < |evs| ==> Run(st, evs).1[i] == Step(StateBefore(st, evs, i), evs[i]).1
    decreases |evs|
  {
    if evs != [] {
      var n := |evs| - 1;
      var init := evs[..n];
      RunRows(st, init);
      var prev := Run(st, init);
      var next := Step(prev.0, evs[n]);
      assert Run(st, evs) == (next.0, prev.1 + [next.1]);
      assert prev.0 == StateBefore(st, evs, n);
      forall i | 0 <= i < |evs| ensures Run(st, evs).1[i] == Step(StateBefore(st, evs, i), evs[i]).1 {
        if i < n {
          assert init[i] == evs[i];
          assert StateBefore(st, init, i) == StateBefore(st, evs, i);
          assert Run(st, evs).1[i] == prev.1[i];
        }
      }
    }
  }

  /**
    Row i of the tree, stated per field: the time tag itself; the elapsed time
    since the first event, plus 2^40 only when this event's time tag is below the
    previous one; the raw time-tag and trigger-count differences from the previous
    event; phaMax and baseline copied.
  */
  lemma {:induction false} DeriveRowAt(evs: seq<EventRecord>, i: nat)
    requires i < |evs|
    ensures |Derive(evs)| == |evs|
    ensures var row := Derive(evs)[i];
            var prev := evs[if i == 0 then 0 else i - 1];
            && row.timeTag == evs[i].timeTag
            && row.timeTagElapse
               == evs[i].timeTag - evs[0].timeTag + (if evs[i].timeTag < prev.timeTag then WrapSpan else 0)
            && row.deltaTimeTag == evs[i].timeTag - prev.timeTag
            && row.deltaTriggerCount == evs[i].triggerCount - prev.triggerCount
            && row.phaMax == evs[i].phaMax
            && row.baseline == evs[i].baseline
  {
    RunRows(Start(evs[0]), evs);
  }

  /** One row per event, in event order, with phaMax and baseline unchanged. */
  lemma {:induction false} DeriveCopiesEvents(evs: seq<EventRecord>)
    requires |evs| > 0
    ensures |Derive(evs)| == |evs|
    ensures forall i :: 0 <= i < |evs| ==>
      Derive(evs)[i].timeTag == evs[i].timeTag
      && Derive(evs)[i].phaMax == evs[i].phaMax
      && Derive(evs)[i].baseline == evs[i].baseline
  {
    forall i | 0 <= i < |evs|
      ensures Derive(evs)[i].timeTag == evs[i].timeTag
      ensures Derive(evs)[i].phaMax == evs[i].phaMax && Derive(evs)[i].baseline == evs[i].baseline
    {
      DeriveRowAt(evs, i);
    }
  }

  /** The first event has no predecessor: its elapsed time and both deltas are 0. */
  lemma {:induction false} FirstRowIsZero(evs: seq<EventRecord>)
    requires |evs| > 0
    ensures Derive(evs)[0].timeTagElapse == 0
    ensures Derive(evs)[0].deltaTimeTag == 0
    ensures Derive(evs)[0].deltaTriggerCount == 0
  {
    DeriveRowAt(evs, 0);
  }

  /**
    The raw time-tag delta is negative exactly on a wrap step, and that is the
    step, and the only one, whose elapsed time carries the 2^40 correction.
  */
  lemma {:induction false} WrapStepIsNegativeDelta(evs: seq<EventRecord>, i: nat)
    requires 0 < i < |evs|
    ensures Derive(evs)[i].deltaTimeTag < 0 <==> evs[i].timeTag < evs[i - 1].timeTag
    ensures Derive(evs)[i].timeTagElapse
            == evs[i].timeTag - evs[0].timeTag + (if Derive(evs)[i].deltaTimeTag < 0 then WrapSpan else 0)
  {
    DeriveRowAt(evs, i);
  }

  function SumDeltaTimeTag(rows: seq<TreeRow>): int
    decreases |rows|
  {
    if rows == [] then 0 else SumDeltaTimeTag(rows[..|rows| - 1]) + rows[|rows| - 1].deltaTimeTag
  }

  function SumDeltaTriggerCount(rows: seq<TreeRow>): int
    decreases |rows|
  {
    if rows == [] then 0 else SumDeltaTriggerCount(rows[..|rows| - 1]) + rows[|rows| - 1].deltaTriggerCount
  }

  /**
    The raw deltas telescope: summed over the first k + 1 rows they give the
    change of the time tag and of the trigger count since the first event.
  */
  lemma {:induction false} DeltasTelescope(evs: seq<EventRecord>, k: nat)
    requires k < |evs|
    ensures |Derive(evs)| == |evs|
    ensures SumDeltaTimeTag(Derive(evs)[..k + 1]) == evs[k].timeTag - evs[0].timeTag
    ensures SumDeltaTriggerCount(Derive(evs)[..k + 1]) == evs[k].triggerCount - evs[0].triggerCount
    decreases k
  {
    var rows := Derive(evs);
    DeriveRowAt(evs, k);
    if k > 0 {
      DeltasTelescope(evs, k - 1);
      assert rows[..k + 1][..k] == rows[..k];
    }
  }

  /** Without a wrap in the table the elapsed time is t - t0 and never decreases. */
  lemma {:induction false} ElapseWithoutWrap(evs: seq<EventRecord>)
    requires |evs| > 0
    requires forall i :: 0 < i < |evs| ==> evs[i - 1].timeTag <= evs[i].timeTag
    ensures |Derive(evs)| == |evs|
    ensures forall i :: 0 <= i < |evs| ==> Derive(evs)[i].timeTagElapse == evs[i].timeTag - evs[0].timeTag
    ensures forall i :: 0 < i < |evs| ==> Derive(evs)[i - 1].timeTagElapse <= Derive(evs)[i].timeTagElapse
  {
    DeriveRowAt(evs, 0);
    forall i | 0 < i < |evs|
      ensures Derive(evs)[i].timeTagElapse == evs[i].timeTag - evs[0].timeTag
      ensures Derive(evs)[i - 1].timeTagElapse <= Derive(evs)[i].timeTagElapse
    {
      DeriveRowAt(evs, i);
      DeriveRowAt(evs, i - 1);
    }
  }

  /**
    The 2^40 correction is not carried past the wrap step: in a table that wraps
    once, the event after the wrap gets a smaller elapsed time than the wrap event.
  */
  lemma ElapseNotCarriedPastWrap()
    ensures var evs := [EventRecord(10, 0, 0, 0), EventRecord(4, 1, 0, 0), EventRecord(6, 2, 0, 0)];
            && Derive(evs)[1].timeTagElapse == WrapSpan - 6
            && Derive(evs)[2].timeTagElapse == -4
            && Derive(evs)[2].timeTagElapse < Derive(evs)[1].timeTagElapse
  {
    var evs := [EventRecord(10, 0, 0, 0), EventRecord(4, 1, 0, 0), EventRecord(6, 2, 0, 0)];
    DeriveRowAt(evs, 1);
    DeriveRowAt(evs, 2);
  }

  /** Two events (timeTag 5, trigger 1) then (timeTag 3, trigger 2): one wrap at the second. */
  lemma TwoEventWrapScenario()
    ensures var evs := [EventRecord(5, 1, 0, 0), EventRecord(3, 2, 0, 0)];
            && |Derive(evs)| == 2
            && Derive(evs)[0].timeTagElapse == 0 && Derive(evs)[1].timeTagElapse == 3 - 5 + WrapSpan
            && Derive(evs)[0].deltaTimeTag == 0 && Derive(evs)[1].deltaTimeTag == -2
            && Derive(evs)[0].deltaTriggerCount == 0 && Derive(evs)[1].deltaTriggerCount == 1
  {
    var evs := [EventRecord(5, 1, 0, 0), EventRecord(3, 2, 0, 0)];
    DeriveRowAt(evs, 0);
    DeriveRowAt(evs, 1);
  }
}
