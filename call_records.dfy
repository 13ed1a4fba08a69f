/**
  Normalisation of raw rows into call records (src/App.jsx:102-128): every
  row is mapped to its parsed start time, call length, direction and result,
  and the rows whose start time, length or direction is missing are dropped.
*/
module CallRecords {
  import opened Wrappers
  import opened JsBuiltins
  import opened Cells
  import opened TemporalParser

  const StartColumn: string := "Call Start Time"
  const LengthColumn: string := "Call Length"
  const DirectionColumn: string := "Call Direction"
  const ResultColumn: string := "Result"

  /** A row after the `processedCalls` map: the row, what was parsed from it, and its position. */
  datatype ProcessedCall = ProcessedCall(
    row: RawRow,
    startTime: Option<int>,
    duration: TimeValue,
    direction: Option<string>,
    result: Option<string>,
    index: nat)

  /**
    A call that passed the filter: start time in milliseconds since the
    epoch, length in seconds, lower-case direction, lower-case result
    (None when the row has no result), and the row's position in the input.
  */
  datatype CallRecord = CallRecord(
    row: RawRow,
    startMs: int,
    duration: int,
    direction: string,
    result: Option<string>,
    index: nat)

  /** The `processedCalls` entry for `row` at position `index`. */
  function Process(row: RawRow, index: nat, hostDate: string -> Option<int>): ProcessedCall {
    ProcessedCall(
      row,
      ParseDateTime(Field(row, StartColumn), hostDate),
      ParseTime(Field(row, LengthColumn)),
      LowerText(Field(row, DirectionColumn)),
      LowerText(Field(row, ResultColumn)),
      index)
  }

  /**
    The validity filter: a start time, a length that is not null and a
    non-empty direction; a length that is NaN is dropped here as well.
  */
  predicate IsValid(p: ProcessedCall) {
    p.startTime.Some? && p.duration.Seconds? && p.direction.Some? && p.direction.value != ""
  }

  /** The call record a valid processed row becomes. */
  function ToRecord(p: ProcessedCall): (c: CallRecord)
    requires IsValid(p)
    ensures c.direction != ""
  {
    CallRecord(p.row, p.startTime.value, p.duration.secs, p.direction.value, p.result, p.index)
  }

  /** `processedCalls`: every row processed, in row order. */
  function ProcessAll(rows: seq<RawRow>, hostDate: string -> Option<int>): (processed: seq<ProcessedCall>)
    ensures |processed| == |rows|
    ensures forall i :: 0 <= i < |rows| ==> processed[i] == Process(rows[i], i, hostDate)
  {
    seq(|rows|, i requires 0 <= i < |rows| => Process(rows[i], i, hostDate))
  }

  /** `validCalls` over the first `n` processed rows: the records of the valid ones among them, in order. */
  function ValidCalls(processed: seq<ProcessedCall>, n: nat): (valid: seq<CallRecord>)
    requires n <= |processed|
    ensures |valid| <= n
  {
    if n == 0 then []
    else
      var prefix := ValidCalls(processed, n - 1);
      var p := processed[n - 1];
      if IsValid(p) then prefix + [ToRecord(p)] else prefix
  }

  /**
    Every record `ValidCalls` keeps comes from a valid processed row among
    the first `n`, converted unchanged.
  */
  lemma {:induction false} ValidCallsSound(processed: seq<ProcessedCall>, n: nat)
    requires n <= |processed|
    requires forall i :: 0 <= i < |processed| ==> processed[i].index == i
    ensures forall k :: 0 <= k < |ValidCalls(processed, n)| ==>
      && ValidCalls(processed, n)[k].index < n
      && IsValid(processed[ValidCalls(processed, n)[k].index])
      && ValidCalls(processed, n)[k] == ToRecord(processed[ValidCalls(processed, n)[k].index])
  {
    if n > 0 {
      ValidCallsSound(processed, n - 1);
      var prefix := ValidCalls(processed, n - 1);
      var p := processed[n - 1];
      if IsValid(p) {
        var valid := prefix + [ToRecord(p)];
        forall k | 0 <= k < |valid|
          ensures valid[k].index < n
          ensures IsValid(processed[valid[k].index])
          ensures valid[k] == ToRecord(processed[valid[k].index])
        {
          if k == |prefix| {
            assert valid[k] == ToRecord(p);
            assert processed[valid[k].index] == p;
          } else {
            assert valid[k] == prefix[k];
          }
        }
      }
    }
  }

  /** The records `ValidCalls` keeps follow row order strictly. */
  lemma {:induction false} ValidCallsOrdered(processed: seq<ProcessedCall>, n: nat)
    requires n <= |processed|
    requires forall i :: 0 <= i < |processed| ==> processed[i].index == i
    ensures forall k, l :: 0 <= k < l < |ValidCalls(processed, n)| ==>
      ValidCalls(processed, n)[k].index < ValidCalls(processed, n)[l].index
  {
    if n > 0 {
      ValidCallsOrdered(processed, n - 1);
      ValidCallsSound(processed, n - 1);
      var prefix := ValidCalls(processed, n - 1);
      var p := processed[n - 1];
      if IsValid(p) {
        var valid := prefix + [ToRecord(p)];
        forall k, l | 0 <= k < l < |valid|
          ensures valid[k].index < valid[l].index
        {
          assert valid[k] == prefix[k];
          if l == |prefix| {
            assert valid[l].index == n - 1;
          } else {
            assert valid[l] == prefix[l];
          }
        }
      }
    }
  }

  /** Some record in `calls` comes from row `i`. */
  predicate HasRow(calls: seq<CallRecord>, i: nat) {
    exists k :: 0 <= k < |calls| && calls[k].index == i
  }

  /** No valid processed row among the first `n` is missing from `ValidCalls`. */
  lemma {:induction false} ValidCallsComplete(processed: seq<ProcessedCall>, n: nat)
    requires n <= |processed|
    requires forall i :: 0 <= i < |processed| ==> processed[i].index == i
    ensures forall i :: 0 <= i < n && IsValid(processed[i]) ==> HasRow(ValidCalls(processed, n), i)
  {
    if n > 0 {
      ValidCallsComplete(processed, n - 1);
      var prefix := ValidCalls(processed, n - 1);
      var p := processed[n - 1];
      var valid := ValidCalls(processed, n);
      forall i | 0 <= i < n && IsValid(processed[i])
        ensures HasRow(valid, i)
      {
        if i == n - 1 {
          assert valid == prefix + [ToRecord(p)];
          assert valid[|prefix|].index == i;
        } else {
          var k :| 0 <= k < |prefix| && prefix[k].index == i;
          if IsValid(p) {
            assert valid == prefix + [ToRecord(p)];
            assert valid[k] == prefix[k];
          }
        }
      }
    }
  }

  /** `validCalls`: the normalised calls of all rows. */
  function Normalize(rows: seq<RawRow>, hostDate: string -> Option<int>): seq<CallRecord> {
    var processed := ProcessAll(rows, hostDate);
    ValidCalls(processed, |processed|)
  }

  /** Record indices strictly increase along a sequence. */
  predicate IndicesIncrease(calls: seq<CallRecord>) {
    forall k, l :: 0 <= k < l < |calls| ==> calls[k].index < calls[l].index
  }

  /**
    Every normalised call has a start time, a length and a non-empty
    direction parsed from its own row, and the normalised calls follow row
    order; no valid row is missing, so the result is empty exactly when no
    row is valid.
  */
  lemma NormalizeSpec(rows: seq<RawRow>, hostDate: string -> Option<int>)
    ensures var valid := Normalize(rows, hostDate);
      && IndicesIncrease(valid)
      && (forall k :: 0 <= k < |valid| ==>
            && valid[k].index < |rows|
            && valid[k].direction != ""
            && Some(valid[k].startMs) == ParseDateTime(Field(rows[valid[k].index], StartColumn), hostDate)
            && Seconds(valid[k].duration) == ParseTime(Field(rows[valid[k].index], LengthColumn))
            && Some(valid[k].direction) == LowerText(Field(rows[valid[k].index], DirectionColumn))
            && valid[k].result == LowerText(Field(rows[valid[k].index], ResultColumn))
            && valid[k].row == rows[valid[k].index])
      && (valid == [] <==> forall i :: 0 <= i < |rows| ==> !IsValid(Process(rows[i], i, hostDate)))
  {
    var processed := ProcessAll(rows, hostDate);
    var valid := Normalize(rows, hostDate);
    ValidCallsSound(processed, |processed|);
    ValidCallsOrdered(processed, |processed|);
    ValidCallsComplete(processed, |processed|);
    assert valid == ValidCalls(processed, |processed|);
    if valid != [] {
      assert valid[0].index < |processed|;
      assert IsValid(processed[valid[0].index]);
    }
  }
}
