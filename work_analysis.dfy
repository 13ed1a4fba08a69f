/**
  The work-time analysis of one call log (src/App.jsx:92-221): the valid
  calls are sorted by start time, the outbound calls are taken in that
  order, every gap between the end of one outbound call and the start of the
  next is reduced by the connected inbound calls that start inside it, gaps
  whose net length exceeds eight minutes count as idle, and idle time beyond
  a 45-minute break allowance is taken off the span from the first outbound
  call to the end of the last one.

  All instants and spans are in milliseconds (the source's seconds times
  1000, exactly); call lengths stay in whole seconds.
*/
module WorkAnalysis {
  import opened Wrappers
  import opened Seqs
  import opened Cells
  import opened CallRecords
  import opened StableSort

  /** A net gap must exceed eight minutes to count as idle. */
  const IdleThresholdMs: int := 480 * 1000
  /** The 45-minute break allowance. */
  const BreakAllowanceMs: int := 45 * 60 * 1000

  /** One recorded idle gap between two consecutive outbound calls. */
  datatype IdleInterval = IdleInterval(
    fromMs: int,
    toMs: int,
    rawGapMs: int,
    inboundDuration: int,
    idleMs: int,
    gapCalls: seq<CallRecord>)

  /** The result of a successful analysis. */
  datatype Analysis = Analysis(
    totalCalls: nat,
    outboundCalls: nat,
    inboundCalls: nat,
    firstCallMs: int,
    lastCallMs: int,
    totalTimeSpanMs: int,
    totalIdleMs: int,
    breakAllowanceMs: int,
    excessIdleMs: int,
    actualWorkMs: int,
    idleBreakdown: seq<IdleInterval>,
    sortedCalls: seq<CallRecord>)

  /** Why an analysis yields nothing: no rows at all, no valid call, no outbound call. */
  datatype Failure = NoData | NoValidCalls | NoOutboundCalls

  /** The instant a call ends: its start plus its length. */
  function EndMs(c: CallRecord): int {
    c.startMs + c.duration * 1000
  }

  predicate IsOutbound(c: CallRecord) {
    c.direction == "outbound"
  }

  predicate IsInbound(c: CallRecord) {
    c.direction == "inbound"
  }

  /** An inbound call whose result is "connected" (a row without a result never is). */
  predicate IsConnectedInbound(c: CallRecord) {
    c.direction == "inbound" && c.result == Some("connected")
  }

  /** The outbound calls of `calls`, in order. */
  function OutboundOf(calls: seq<CallRecord>): seq<CallRecord> {
    Filter(calls, IsOutbound)
  }

  /** The test "a connected inbound call that starts strictly between `fromMs` and `toMs`". */
  function InGap(fromMs: int, toMs: int): CallRecord -> bool {
    (c: CallRecord) => fromMs < c.startMs < toMs && IsConnectedInbound(c)
  }

  /** The connected inbound calls of `calls` inside the gap, in order. */
  function GapCalls(calls: seq<CallRecord>, fromMs: int, toMs: int): seq<CallRecord> {
    Filter(calls, InGap(fromMs, toMs))
  }

  /** The summed lengths, in seconds. */
  function SumDurations(calls: seq<CallRecord>): int {
    if calls == [] then 0 else SumDurations(calls[..|calls| - 1]) + calls[|calls| - 1].duration
  }

  /** The sum over a concatenation is the sum of the sums. */
  lemma {:induction false} SumDurationsConcat(a: seq<CallRecord>, b: seq<CallRecord>)
    ensures SumDurations(a + b) == SumDurations(a) + SumDurations(b)
    decreases |b|
  {
    if b == [] {
      assert a + b == a;
    } else {
      var b' := b[..|b| - 1];
      assert (a + b)[..|a + b| - 1] == a + b';
      assert (a + b)[|a + b| - 1] == b[|b| - 1];
      SumDurationsConcat(a, b');
    }
  }

  /** The gap from the end of `current` to the start of `next`, with the inbound time inside it. */
  function Gap(calls: seq<CallRecord>, current: CallRecord, next: CallRecord): IdleInterval {
    var fromMs := EndMs(current);
    var inside := GapCalls(calls, fromMs, next.startMs);
    var inbound := SumDurations(inside);
    IdleInterval(fromMs, next.startMs, next.startMs - fromMs, inbound, next.startMs - fromMs - inbound * 1000, inside)
  }

  /** The gaps between consecutive outbound calls, in order. */
  function Gaps(calls: seq<CallRecord>, outbound: seq<CallRecord>): (gaps: seq<IdleInterval>)
    ensures |gaps| == if outbound == [] then 0 else |outbound| - 1
  {
    if outbound == [] then []
    else seq(|outbound| - 1, j requires 0 <= j < |outbound| - 1 => Gap(calls, outbound[j], outbound[j + 1]))
  }

  /** A gap counts as idle when its net length exceeds the threshold. */
  predicate IsIdle(g: IdleInterval) {
    g.idleMs > IdleThresholdMs
  }

  /** The idle gaps, in outbound order. */
  function IdleBreakdown(calls: seq<CallRecord>, outbound: seq<CallRecord>): seq<IdleInterval> {
    Filter(Gaps(calls, outbound), IsIdle)
  }

  /** The summed idle time of the recorded gaps. */
  function TotalIdle(breakdown: seq<IdleInterval>): int {
    if breakdown == [] then 0 else TotalIdle(breakdown[..|breakdown| - 1]) + breakdown[|breakdown| - 1].idleMs
  }

  /** The totals for sorted calls whose outbound calls are `outbound` and whose idle gaps are `breakdown`. */
  function Summarize(sorted: seq<CallRecord>, outbound: seq<CallRecord>, breakdown: seq<IdleInterval>): Analysis
    requires outbound != []
  {
    var first := outbound[0];
    var lastEnd := EndMs(outbound[|outbound| - 1]);
    var span := lastEnd - first.startMs;
    var idle := TotalIdle(breakdown);
    var excess := if 0 < idle - BreakAllowanceMs then idle - BreakAllowanceMs else 0;
    Analysis(
      |sorted|, |outbound|, |Filter(sorted, IsInbound)|,
      first.startMs, lastEnd, span, idle, BreakAllowanceMs, excess, span - excess,
      breakdown, sorted)
  }

  /** The analysis of already normalised calls. */
  function AnalyzeCalls(valid: seq<CallRecord>): Result<Analysis, Failure> {
    if valid == [] then Failure(NoValidCalls)
    else
      var sorted := SortByStart(valid);
      var outbound := OutboundOf(sorted);
      if outbound == [] then Failure(NoOutboundCalls)
      else Success(Summarize(sorted, outbound, IdleBreakdown(sorted, outbound)))
  }

  /** The analysis of a sheet's rows. */
  function Analyze(rows: seq<RawRow>, hostDate: string -> Option<int>): Result<Analysis, Failure> {
    if rows == [] then Failure(NoData)
    else AnalyzeCalls(Normalize(rows, hostDate))
  }

  /**
    `analyzeCallData`: normalises the rows, sorts the valid calls in place,
    and walks the consecutive outbound pairs once, adding every idle gap to
    the running total and to the breakdown.
  */
  method AnalyzeCallData(rows: seq<RawRow>, hostDate: string -> Option<int>) returns (r: Result<Analysis, Failure>)
    ensures r == Analyze(rows, hostDate)
  {
    if |rows| == 0 {
      return Failure(NoData);
    }
    var valid := Normalize(rows, hostDate);
    if |valid| == 0 {
      return Failure(NoValidCalls);
    }
    var a := new CallRecord[|valid|](k requires 0 <= k < |valid| => valid[k]);
    assert a[..] == valid;
    SortCalls(a);
    var sorted := a[..];
    assert sorted == SortByStart(valid);
    var outbound := OutboundOf(sorted);
    if |outbound| == 0 {
      return Failure(NoOutboundCalls);
    }
    var analysis := SummarizeCalls(sorted, outbound);
    r := Success(analysis);
  }

  /** The totals of `analyzeCallData` once the outbound calls are known. */
  method SummarizeCalls(sorted: seq<CallRecord>, outbound: seq<CallRecord>) returns (a: Analysis)
    requires outbound != []
    ensures a == Summarize(sorted, outbound, IdleBreakdown(sorted, outbound))
  {
    var first := outbound[0];
    var lastEnd := EndMs(outbound[|outbound| - 1]);
    var span := lastEnd - first.startMs;
    var totalIdle, breakdown := IdleScan(sorted, outbound);
    var excess := if 0 < totalIdle - BreakAllowanceMs then totalIdle - BreakAllowanceMs else 0;
    a := Analysis(
      |sorted|, |outbound|, |Filter(sorted, IsInbound)|,
      first.startMs, lastEnd, span, totalIdle, BreakAllowanceMs, excess, span - excess,
      breakdown, sorted);
  }

  /**
    The loop of `analyzeCallData` over consecutive outbound pairs: the gap
    from the end of one call to the start of the next, less the connected
    inbound time inside it, is recorded and added to the total when it
    exceeds the threshold.
  */
  method IdleScan(sorted: seq<CallRecord>, outbound: seq<CallRecord>) returns (totalIdle: int, breakdown: seq<IdleInterval>)
    ensures breakdown == IdleBreakdown(sorted, outbound)
    ensures totalIdle == TotalIdle(breakdown)
  {
    totalIdle, breakdown := 0, [];
    ghost var gaps := Gaps(sorted, outbound);
    var i := 0;
    while i < |outbound| - 1
      invariant 0 <= i <= |gaps|
      invariant breakdown == IdlePrefix(gaps, i)
      invariant totalIdle == TotalIdle(breakdown)
    {
      var current, next := outbound[i], outbound[i + 1];
      var currentEnd := EndMs(current);
      var gap := next.startMs - currentEnd;
      var inside := GapCalls(sorted, currentEnd, next.startMs);
      var inbound := SumDurations(inside);
      var idle := gap - inbound * 1000;
      GapsAt(sorted, outbound, i);
      assert IdleInterval(currentEnd, next.startMs, gap, inbound, idle, inside) == gaps[i];
      if idle > IdleThresholdMs {
        TotalIdleAppend(breakdown, gaps[i]);
        totalIdle := totalIdle + idle;
        breakdown := breakdown + [IdleInterval(currentEnd, next.startMs, gap, inbound, idle, inside)];
      }
      i := i + 1;
    }
    IdlePrefixFilter(gaps, i);
    assert gaps[..i] == gaps;
  }

  /** The gap at position `j` lies between outbound calls `j` and `j + 1`. */
  lemma GapsAt(calls: seq<CallRecord>, outbound: seq<CallRecord>, j: nat)
    requires j + 1 < |outbound|
    ensures Gaps(calls, outbound)[j] == Gap(calls, outbound[j], outbound[j + 1])
  {
  }

  /**
    The idle gaps among the first `i` gaps, in order: what `IdleScan` has
    recorded after `i` steps. It is `Filter(gaps[..i], IsIdle)`
    (`IdlePrefixFilter`), written by index so that the loop invariant of
    `IdleScan` needs no reasoning about slices of `gaps`.
  */
  function IdlePrefix(gaps: seq<IdleInterval>, i: nat): seq<IdleInterval>
    requires i <= |gaps|
  {
    if i == 0 then [] else IdlePrefix(gaps, i - 1) + (if IsIdle(gaps[i - 1]) then [gaps[i - 1]] else [])
  }

  /** After `i` steps the recorded gaps are the idle ones among the first `i`. */
  lemma {:induction false} IdlePrefixFilter(gaps: seq<IdleInterval>, i: nat)
    requires i <= |gaps|
    ensures IdlePrefix(gaps, i) == Filter(gaps[..i], IsIdle)
  {
    if i > 0 {
      IdlePrefixFilter(gaps, i - 1);
      assert gaps[..i][..i - 1] == gaps[..i - 1];
    }
  }

  /** Recording one more gap adds its idle time to the total. */
  lemma TotalIdleAppend(breakdown: seq<IdleInterval>, g: IdleInterval)
    ensures TotalIdle(breakdown + [g]) == TotalIdle(breakdown) + g.idleMs
  {
    assert (breakdown + [g])[..|breakdown|] == breakdown;
  }

  /** The start of a call and the end of a gap, as functions for the ordering lemmas. */
  function StartOf(c: CallRecord): int { c.startMs }
  function GapEnd(g: IdleInterval): int { g.toMs }

  /** The calls inside a gap are exactly the connected inbound calls that start strictly inside it. */
  lemma GapCallsSpec(calls: seq<CallRecord>, fromMs: int, toMs: int)
    ensures var inside := GapCalls(calls, fromMs, toMs);
      && (forall k :: 0 <= k < |inside| ==>
            inside[k] in calls && fromMs < inside[k].startMs < toMs && IsConnectedInbound(inside[k]))
      && (forall k :: 0 <= k < |calls| && fromMs < calls[k].startMs < toMs && IsConnectedInbound(calls[k]) ==>
            calls[k] in inside)
  {
    FilterMembers(calls, InGap(fromMs, toMs));
  }

  /**
    The breakdown holds exactly the idle gaps between consecutive outbound
    calls: every entry exceeds the threshold, is its raw gap less the
    connected inbound seconds inside it, and is the gap after some outbound
    call; every gap that exceeds it is an entry, there are fewer
    entries than outbound calls.
  */
  lemma {:induction false} BreakdownSpec(calls: seq<CallRecord>, outbound: seq<CallRecord>)
    requires outbound != []
    ensures var breakdown := IdleBreakdown(calls, outbound);
      && |breakdown| <= |outbound| - 1
      && (forall k :: 0 <= k < |breakdown| ==>
            && breakdown[k].idleMs > IdleThresholdMs
            && breakdown[k].idleMs == breakdown[k].rawGapMs - breakdown[k].inboundDuration * 1000
            && breakdown[k].rawGapMs == breakdown[k].toMs - breakdown[k].fromMs
            && breakdown[k].gapCalls == GapCalls(calls, breakdown[k].fromMs, breakdown[k].toMs)
            && breakdown[k].inboundDuration == SumDurations(breakdown[k].gapCalls)
            && exists j :: 0 <= j < |outbound| - 1 && breakdown[k] == Gap(calls, outbound[j], outbound[j + 1]))
      && (forall j :: 0 <= j < |outbound| - 1 ==>
            (Gap(calls, outbound[j], outbound[j + 1]) in breakdown <==> Gap(calls, outbound[j], outbound[j + 1]).idleMs > IdleThresholdMs))
  {
    var gaps := Gaps(calls, outbound);
    var breakdown := IdleBreakdown(calls, outbound);
    FilterMembers(gaps, IsIdle);
    forall k | 0 <= k < |breakdown|
      ensures breakdown[k].idleMs == breakdown[k].rawGapMs - breakdown[k].inboundDuration * 1000
      ensures breakdown[k].rawGapMs == breakdown[k].toMs - breakdown[k].fromMs
      ensures breakdown[k].gapCalls == GapCalls(calls, breakdown[k].fromMs, breakdown[k].toMs)
      ensures breakdown[k].inboundDuration == SumDurations(breakdown[k].gapCalls)
      ensures exists j :: 0 <= j < |outbound| - 1 && breakdown[k] == Gap(calls, outbound[j], outbound[j + 1])
    {
      var j :| 0 <= j < |gaps| && gaps[j] == breakdown[k];
      GapsAt(calls, outbound, j);
    }
    forall j | 0 <= j < |outbound| - 1
      ensures Gap(calls, outbound[j], outbound[j + 1]) in breakdown <==> Gap(calls, outbound[j], outbound[j + 1]).idleMs > IdleThresholdMs
    {
      GapsAt(calls, outbound, j);
      var g := gaps[j];
      if g in breakdown {
        var k :| 0 <= k < |breakdown| && breakdown[k] == g;
      }
    }
  }

  /** For outbound calls in start order, the breakdown entries end in that order too. */
  lemma {:induction false} BreakdownOrdered(calls: seq<CallRecord>, outbound: seq<CallRecord>)
    requires forall i, j :: 0 <= i < j < |outbound| ==> outbound[i].startMs <= outbound[j].startMs
    ensures var breakdown := IdleBreakdown(calls, outbound);
      forall k, l :: 0 <= k < l < |breakdown| ==> breakdown[k].toMs <= breakdown[l].toMs
  {
    var gaps := Gaps(calls, outbound);
    forall i, j | 0 <= i < j < |gaps|
      ensures GapEnd(gaps[i]) <= GapEnd(gaps[j])
    {
      GapsAt(calls, outbound, i);
      GapsAt(calls, outbound, j);
    }
    FilterOrdered(gaps, IsIdle, GapEnd);
  }

  /** Every recorded gap adds more than the threshold, so the total is at least 480.001 s per entry. */
  lemma {:induction false} TotalIdleBound(breakdown: seq<IdleInterval>)
    requires forall k :: 0 <= k < |breakdown| ==> IsIdle(breakdown[k])
    ensures TotalIdle(breakdown) >= 480001 * |breakdown|
  {
    if breakdown != [] {
      TotalIdleBound(breakdown[..|breakdown| - 1]);
    }
  }

  /** The sorted calls have an outbound call exactly when the unsorted ones do. */
  lemma OutboundAfterSort(valid: seq<CallRecord>)
    ensures OutboundOf(SortByStart(valid)) == [] <==> forall k :: 0 <= k < |valid| ==> !IsOutbound(valid[k])
  {
    var sorted := SortByStart(valid);
    SortByStartSpec(valid);
    FilterMembers(sorted, IsOutbound);
    if k :| 0 <= k < |valid| && IsOutbound(valid[k]) {
      assert valid[k] in multiset(sorted);
      var m :| 0 <= m < |sorted| && sorted[m] == valid[k];
    }
    if OutboundOf(sorted) != [] {
      var c := OutboundOf(sorted)[0];
      assert c in multiset(valid);
      var k :| 0 <= k < |valid| && valid[k] == c;
    }
  }

  /**
    An analysis fails for no rows, for rows none of which is a valid call,
    and for valid calls none of which is outbound, and only then.
  */
  lemma AnalyzeFailures(rows: seq<RawRow>, hostDate: string -> Option<int>)
    ensures Analyze(rows, hostDate) == Failure(NoData) <==> rows == []
    ensures Analyze(rows, hostDate) == Failure(NoValidCalls) <==>
      rows != [] && forall i :: 0 <= i < |rows| ==> !IsValid(Process(rows[i], i, hostDate))
    ensures Analyze(rows, hostDate) == Failure(NoOutboundCalls) <==>
      && rows != []
      && Normalize(rows, hostDate) != []
      && forall k :: 0 <= k < |Normalize(rows, hostDate)| ==> !IsOutbound(Normalize(rows, hostDate)[k])
  {
    NormalizeSpec(rows, hostDate);
    OutboundAfterSort(Normalize(rows, hostDate));
  }

  /** A successful analysis of valid calls is their summary. */
  lemma SuccessShape(valid: seq<CallRecord>)
    requires AnalyzeCalls(valid).Success?
    ensures valid != [] && OutboundOf(SortByStart(valid)) != []
    ensures var sorted := SortByStart(valid);
      AnalyzeCalls(valid).value == Summarize(sorted, OutboundOf(sorted), IdleBreakdown(sorted, OutboundOf(sorted)))
  {
  }

  /**
    The sorted calls of a successful analysis of calls in row order are
    those calls ordered by start time: a permutation of them, in
    non-decreasing start order, with equal start times in row order, and
    with each start time's calls in the same order as before sorting.
  */
  lemma CallsSortedCalls(valid: seq<CallRecord>)
    requires IndicesIncrease(valid)
    requires AnalyzeCalls(valid).Success?
    ensures var a := AnalyzeCalls(valid).value;
      && a.totalCalls == |valid| > 0
      && multiset(a.sortedCalls) == multiset(valid)
      && SortedByStart(a.sortedCalls)
      && TiesByIndex(a.sortedCalls)
      && (forall t :: WithStart(a.sortedCalls, t) == WithStart(valid, t))
  {
    SuccessShape(valid);
    SortByStartSpec(valid);
    SortTiesByIndex(valid);
    forall t ensures WithStart(SortByStart(valid), t) == WithStart(valid, t) {
      SortStable(valid, t);
    }
  }

  /** The analysis of rows that yields one is the analysis of their normalised calls, which follow row order. */
  lemma AnalyzeRows(rows: seq<RawRow>, hostDate: string -> Option<int>)
    requires Analyze(rows, hostDate).Success?
    ensures Analyze(rows, hostDate) == AnalyzeCalls(Normalize(rows, hostDate))
    ensures IndicesIncrease(Normalize(rows, hostDate))
  {
    NormalizeSpec(rows, hostDate);
  }

  /** `CallsSortedCalls` for the normalised calls of a sheet's rows. */
  lemma AnalysisSortedCalls(rows: seq<RawRow>, hostDate: string -> Option<int>)
    requires Analyze(rows, hostDate).Success?
    ensures var a, valid := Analyze(rows, hostDate).value, Normalize(rows, hostDate);
      && a.totalCalls == |valid| > 0
      && multiset(a.sortedCalls) == multiset(valid)
      && SortedByStart(a.sortedCalls)
      && TiesByIndex(a.sortedCalls)
      && (forall t :: WithStart(a.sortedCalls, t) == WithStart(valid, t))
  {
    AnalyzeRows(rows, hostDate);
    CallsSortedCalls(Normalize(rows, hostDate));
  }

  /**
    The breakdown of a successful analysis: each entry is an idle gap
    between consecutive outbound calls of the sorted calls, with the
    threshold, raw gap and inbound offset relations; every such gap above
    the threshold is an entry; the entries are fewer than the outbound calls
    and in outbound order; and the total idle time is their sum, at least
    480.001 s per entry.
  */
  lemma AnalysisBreakdown(valid: seq<CallRecord>)
    requires AnalyzeCalls(valid).Success?
    ensures var a := AnalyzeCalls(valid).value;
      var outbound, breakdown := OutboundOf(a.sortedCalls), a.idleBreakdown;
      && a.outboundCalls == |outbound| > 0
      && |breakdown| <= a.outboundCalls - 1
      && (forall k :: 0 <= k < |breakdown| ==>
            && breakdown[k].idleMs > IdleThresholdMs
            && breakdown[k].idleMs == breakdown[k].rawGapMs - breakdown[k].inboundDuration * 1000
            && breakdown[k].rawGapMs == breakdown[k].toMs - breakdown[k].fromMs
            && breakdown[k].gapCalls == GapCalls(a.sortedCalls, breakdown[k].fromMs, breakdown[k].toMs)
            && breakdown[k].inboundDuration == SumDurations(breakdown[k].gapCalls)
            && exists j :: 0 <= j < |outbound| - 1 && breakdown[k] == Gap(a.sortedCalls, outbound[j], outbound[j + 1]))
      && (forall j :: 0 <= j < |outbound| - 1 && Gap(a.sortedCalls, outbound[j], outbound[j + 1]).idleMs > IdleThresholdMs ==>
            Gap(a.sortedCalls, outbound[j], outbound[j + 1]) in breakdown)
      && (forall k, l :: 0 <= k < l < |breakdown| ==> breakdown[k].toMs <= breakdown[l].toMs)
      && a.totalIdleMs == TotalIdle(breakdown) >= 480001 * |breakdown| >= 0
  {
    SuccessShape(valid);
    var sorted := SortByStart(valid);
    var outbound := OutboundOf(sorted);
    SortByStartSpec(valid);
    BreakdownSpec(sorted, outbound);
    forall i, j | 0 <= i < j < |sorted| ensures StartOf(sorted[i]) <= StartOf(sorted[j]) { }
    FilterOrdered(sorted, IsOutbound, StartOf);
    BreakdownOrdered(sorted, outbound);
    TotalIdleBound(IdleBreakdown(sorted, outbound));
  }

  /**
    The span of an analysis runs from the earliest outbound start to the end
    of the latest-starting outbound call.
  */
  predicate SpanFacts(a: Analysis) {
    var outbound := OutboundOf(a.sortedCalls);
    && outbound != []
    && a.firstCallMs == outbound[0].startMs
    && a.lastCallMs == EndMs(outbound[|outbound| - 1])
    && (forall k :: 0 <= k < |outbound| ==> a.firstCallMs <= outbound[k].startMs <= outbound[|outbound| - 1].startMs)
    && a.totalTimeSpanMs == a.lastCallMs - a.firstCallMs
  }

  /** No call of `calls` starts before the first one or after the last one. */
  predicate FirstStartsEarliest(calls: seq<CallRecord>) {
    forall k :: 0 <= k < |calls| ==> calls[0].startMs <= calls[k].startMs <= calls[|calls| - 1].startMs
  }

  /** The span of a successful analysis is as `SpanFacts` describes. */
  lemma AnalysisSpan(valid: seq<CallRecord>)
    requires AnalyzeCalls(valid).Success?
    ensures SpanFacts(AnalyzeCalls(valid).value)
  {
    SuccessShape(valid);
    SortByStartSpec(valid);
    OutboundInOrder(SortByStart(valid));
    var sorted := SortByStart(valid);
    SummarySpan(sorted, IdleBreakdown(sorted, OutboundOf(sorted)));
  }

  /** The span of `Summarize` when the first outbound call starts earliest and the last latest. */
  lemma SummarySpan(sorted: seq<CallRecord>, breakdown: seq<IdleInterval>)
    requires OutboundOf(sorted) != []
    requires FirstStartsEarliest(OutboundOf(sorted))
    ensures SpanFacts(Summarize(sorted, OutboundOf(sorted), breakdown))
  {
  }

  /**
    The totals of a successful analysis: the excess is the idle time beyond
    the 45-minute allowance (never negative, never more than the idle time),
    the work time is the span less the excess (the whole span when idle time
    is within the allowance), and outbound and inbound calls together are at
    most all calls.
  */
  lemma AnalysisTotals(valid: seq<CallRecord>)
    requires AnalyzeCalls(valid).Success?
    ensures var a := AnalyzeCalls(valid).value;
      && a.breakAllowanceMs == 2700000
      && a.excessIdleMs == (if a.totalIdleMs > 2700000 then a.totalIdleMs - 2700000 else 0)
      && 0 <= a.excessIdleMs <= a.totalIdleMs
      && a.actualWorkMs == a.totalTimeSpanMs - a.excessIdleMs
      && (a.totalIdleMs <= 2700000 ==> a.actualWorkMs == a.totalTimeSpanMs)
      && a.outboundCalls + a.inboundCalls <= a.totalCalls
  {
    SuccessShape(valid);
    var sorted := SortByStart(valid);
    IdleNonNegative(sorted, OutboundOf(sorted));
    FilterDisjoint(sorted, IsOutbound, IsInbound);
  }

  /** The outbound calls of calls sorted by start time are sorted too: the first starts earliest, the last latest. */
  lemma OutboundInOrder(sorted: seq<CallRecord>)
    requires SortedByStart(sorted)
    ensures FirstStartsEarliest(OutboundOf(sorted))
  {
    var outbound := OutboundOf(sorted);
    forall i, j | 0 <= i < j < |sorted| ensures StartOf(sorted[i]) <= StartOf(sorted[j]) { }
    FilterOrdered(sorted, IsOutbound, StartOf);
    forall k | 0 <= k < |outbound|
      ensures outbound[0].startMs <= outbound[k].startMs <= outbound[|outbound| - 1].startMs
    {
      assert StartOf(outbound[0]) <= StartOf(outbound[k]);
      assert StartOf(outbound[k]) <= StartOf(outbound[|outbound| - 1]);
    }
  }

  /** The total idle time of a breakdown is never negative. */
  lemma IdleNonNegative(sorted: seq<CallRecord>, outbound: seq<CallRecord>)
    ensures TotalIdle(IdleBreakdown(sorted, outbound)) >= 0
  {
    FilterMembers(Gaps(sorted, outbound), IsIdle);
    TotalIdleBound(IdleBreakdown(sorted, outbound));
  }

  /**
    A worked day: an outbound call of 60 s at `t`, a connected inbound call
    of 50 s at `t` + 500 s and an outbound call of 30 s at `t` + 1000 s.
  */
  function WorkedDayCalls(t: int): seq<CallRecord> {
    [ CallRecord(map[], t, 60, "outbound", None, 0),
      CallRecord(map[], t + 500000, 50, "inbound", Some("connected"), 1),
      CallRecord(map[], t + 1000000, 30, "outbound", None, 2) ]
  }

  /**
    The worked day gives one idle gap of 940 s less 50 s, 890 s in all,
    within the allowance, so the 1030 s span is all work.
  */
  lemma WorkedDay(t: int)
    ensures var calls := WorkedDayCalls(t);
      var r := AnalyzeCalls(calls);
      && r.Success?
      && r.value.totalCalls == 3 && r.value.outboundCalls == 2 && r.value.inboundCalls == 1
      && r.value.idleBreakdown == [IdleInterval(t + 60000, t + 1000000, 940000, 50, 890000, [calls[1]])]
      && r.value.totalIdleMs == 890000
      && r.value.excessIdleMs == 0
      && r.value.totalTimeSpanMs == 1030000
      && r.value.actualWorkMs == 1030000
  {
    var calls := WorkedDayCalls(t);
    WorkedDaySorted(t);
    WorkedDayBreakdown(t);
    var g := IdleInterval(t + 60000, t + 1000000, 940000, 50, 890000, [calls[1]]);
    assert TotalIdle([g]) == 890000;
  }

  /** The worked day is already in start order; two of its calls are outbound and one inbound. */
  lemma WorkedDaySorted(t: int)
    ensures var calls := WorkedDayCalls(t);
      && SortByStart(calls) == calls
      && OutboundOf(calls) == [calls[0], calls[2]]
      && |Filter(calls, IsInbound)| == 1
  {
    var calls := WorkedDayCalls(t);
    SortSortedIdentity(calls);
    FilterThree(calls[0], calls[1], calls[2], IsOutbound);
    FilterThree(calls[0], calls[1], calls[2], IsInbound);
  }

  /** The one gap of the worked day holds the inbound call and is idle. */
  lemma WorkedDayBreakdown(t: int)
    ensures var calls := WorkedDayCalls(t);
      IdleBreakdown(calls, [calls[0], calls[2]]) == [IdleInterval(t + 60000, t + 1000000, 940000, 50, 890000, [calls[1]])]
  {
    var calls := WorkedDayCalls(t);
    FilterThree(calls[0], calls[1], calls[2], InGap(t + 60000, t + 1000000));
    assert [calls[1]][..0] == [];
    assert SumDurations([calls[1]]) == 50;
    var g := Gap(calls, calls[0], calls[2]);
    assert g == IdleInterval(t + 60000, t + 1000000, 940000, 50, 890000, [calls[1]]);
    assert Gaps(calls, [calls[0], calls[2]]) == [g];
    assert [g][..0] == [];
  }

  /**
    With two outbound calls and nothing else, the gap between them is idle
    exactly when it exceeds eight minutes, and the work time is the span
    less the idle time beyond the allowance.
  */
  lemma TwoOutboundCalls(first: CallRecord, second: CallRecord)
    requires IsOutbound(first) && IsOutbound(second)
    requires first.startMs <= second.startMs
    ensures var r := AnalyzeCalls([first, second]);
      var gap := second.startMs - EndMs(first);
      var idle := if gap > 480000 then gap else 0;
      && r.Success?
      && (r.value.idleBreakdown != [] <==> gap > 480000)
      && r.value.totalIdleMs == idle
      && r.value.actualWorkMs == EndMs(second) - first.startMs - (if idle > 2700000 then idle - 2700000 else 0)
  {
    var calls := [first, second];
    assert SortedByStart(calls);
    SortSortedIdentity(calls);
    FilterTwo(first, second, IsOutbound);
    var fromMs := EndMs(first);
    FilterTwo(first, second, InGap(fromMs, second.startMs));
    var g := Gap(calls, first, second);
    assert g.gapCalls == [] && g.idleMs == second.startMs - fromMs;
    assert Gaps(calls, calls) == [g];
    assert [g][..0] == [];
    assert IdleBreakdown(calls, calls) == if IsIdle(g) then [g] else [];
    assert TotalIdle([g]) == g.idleMs;
    assert AnalyzeCalls(calls) == Success(Summarize(calls, calls, IdleBreakdown(calls, calls)));
  }

  /** A net gap of exactly eight minutes is not idle; one millisecond more is. */
  lemma EightMinuteBoundary(first: CallRecord, second: CallRecord)
    requires IsOutbound(first) && IsOutbound(second)
    requires first.duration >= 0
    requires second.startMs == EndMs(first) + 480000
    ensures AnalyzeCalls([first, second]).Success?
    ensures AnalyzeCalls([first, second]).value.idleBreakdown == []
    ensures AnalyzeCalls([first, second.(startMs := second.startMs + 1)]).Success?
    ensures AnalyzeCalls([first, second.(startMs := second.startMs + 1)]).value.totalIdleMs == 480001
  {
    TwoOutboundCalls(first, second);
    TwoOutboundCalls(first, second.(startMs := second.startMs + 1));
  }
}
