/**
  The sort of the valid calls by ascending start time (src/App.jsx:137).
  The engine's `Array.prototype.sort` is stable; it is specified here by insertion, and
  the lemmas show that the result is sorted, a permutation of the input and
  stable. `SortCalls` is the in-place sort on an array, proved to produce
  exactly that sequence.
*/
module StableSort {
  import opened Seqs
  import opened CallRecords

  /** Start times do not decrease along `s`. */
  predicate SortedByStart(s: seq<CallRecord>) {
    forall i, j :: 0 <= i < j < |s| ==> s[i].startMs <= s[j].startMs
  }

  /** Calls with equal start times keep increasing indices along `s`. */
  predicate TiesByIndex(s: seq<CallRecord>) {
    forall i, j :: 0 <= i < j < |s| && s[i].startMs == s[j].startMs ==> s[i].index < s[j].index
  }

  /** `x` placed after every element of `s` whose start time is not later than its own. */
  function Insert(s: seq<CallRecord>, x: CallRecord): (r: seq<CallRecord>)
    ensures |r| == |s| + 1
  {
    if s == [] || s[|s| - 1].startMs <= x.startMs then s + [x]
    else Insert(s[..|s| - 1], x) + [s[|s| - 1]]
  }

  /** Inserting adds `x` and loses nothing. */
  lemma {:induction false} InsertPermutation(s: seq<CallRecord>, x: CallRecord)
    ensures multiset(Insert(s, x)) == multiset(s) + multiset{x}
  {
    if !(s == [] || s[|s| - 1].startMs <= x.startMs) {
      var p := s[..|s| - 1];
      assert s == p + [s[|s| - 1]];
      InsertPermutation(p, x);
    }
  }

  /** Inserting into a sorted sequence keeps it sorted. */
  lemma {:induction false} InsertSorted(s: seq<CallRecord>, x: CallRecord)
    requires SortedByStart(s)
    ensures SortedByStart(Insert(s, x))
  {
    if !(s == [] || s[|s| - 1].startMs <= x.startMs) {
      var p, last := s[..|s| - 1], s[|s| - 1];
      InsertSorted(p, x);
      InsertPermutation(p, x);
      var q := Insert(p, x);
      forall i | 0 <= i < |q|
        ensures q[i].startMs <= last.startMs
      {
        assert q[i] in multiset(q);
        if q[i] != x {
          assert q[i] in multiset(p);
          var j :| 0 <= j < |p| && p[j] == q[i];
          assert s[j] == p[j];
        }
      }
      assert Insert(s, x) == q + [last];
    }
  }

  /** The calls of `s` ordered by start time, ties in their order in `s`. */
  function SortByStart(s: seq<CallRecord>): (r: seq<CallRecord>)
    ensures |r| == |s|
  {
    if s == [] then []
    else Insert(SortByStart(s[..|s| - 1]), s[|s| - 1])
  }

  /** The sorted calls are ordered by start time and are a permutation of the input. */
  lemma {:induction false} SortByStartSpec(s: seq<CallRecord>)
    ensures SortedByStart(SortByStart(s))
    ensures multiset(SortByStart(s)) == multiset(s)
  {
    if s != [] {
      var p := s[..|s| - 1];
      assert s == p + [s[|s| - 1]];
      SortByStartSpec(p);
      InsertSorted(SortByStart(p), s[|s| - 1]);
      InsertPermutation(SortByStart(p), s[|s| - 1]);
    }
  }

  /** Calls already in start order are left as they are; in particular sorting twice is sorting once. */
  lemma {:induction false} SortSortedIdentity(s: seq<CallRecord>)
    requires SortedByStart(s)
    ensures SortByStart(s) == s
  {
    if s != [] {
      var p := s[..|s| - 1];
      SortSortedIdentity(p);
      assert p + [s[|s| - 1]] == s;
    }
  }

  /** Sorting is idempotent. */
  lemma SortIdempotent(s: seq<CallRecord>)
    ensures SortByStart(SortByStart(s)) == SortByStart(s)
  {
    SortByStartSpec(s);
    SortSortedIdentity(SortByStart(s));
  }

  /** The test "starts at `t`". */
  function StartsAt(t: int): CallRecord -> bool {
    (c: CallRecord) => c.startMs == t
  }

  /** The calls of `s` that start at `t`, in their order in `s`. */
  function WithStart(s: seq<CallRecord>, t: int): seq<CallRecord> {
    Filter(s, StartsAt(t))
  }

  /** Filtering a one-element sequence. */
  lemma FilterSingle(y: CallRecord, t: int)
    ensures Filter([y], StartsAt(t)) == if y.startMs == t then [y] else []
  {
    assert [y][..0] == [];
  }

  /** Inserting `x` appends it to the calls that share its start time and leaves the others alone. */
  lemma {:induction false} InsertStable(s: seq<CallRecord>, x: CallRecord, t: int)
    ensures WithStart(Insert(s, x), t) == WithStart(s, t) + (if x.startMs == t then [x] else [])
  {
    FilterSingle(x, t);
    if s == [] || s[|s| - 1].startMs <= x.startMs {
      assert Insert(s, x) == s + [x];
      FilterConcat(s, [x], StartsAt(t));
    } else {
      var p, last := s[..|s| - 1], s[|s| - 1];
      assert s == p + [last];
      InsertStable(p, x, t);
      InsertShift(p, last, x, t);
    }
  }

  /** A call that starts earlier than the last call is inserted before it. */
  lemma InsertBeforeLast(p: seq<CallRecord>, last: CallRecord, x: CallRecord)
    requires last.startMs > x.startMs
    ensures Insert(p + [last], x) == Insert(p, x) + [last]
  {
    assert (p + [last])[..|p|] == p;
  }

  /** The step of `InsertStable` where `x` moves in front of the last call `last`. */
  lemma InsertShift(p: seq<CallRecord>, last: CallRecord, x: CallRecord, t: int)
    requires last.startMs > x.startMs
    requires WithStart(Insert(p, x), t) == WithStart(p, t) + (if x.startMs == t then [x] else [])
    ensures WithStart(Insert(p + [last], x), t) == WithStart(p + [last], t) + (if x.startMs == t then [x] else [])
  {
    var keep := StartsAt(t);
    var q := Insert(p, x);
    InsertBeforeLast(p, last, x);
    FilterConcat(q, [last], keep);
    FilterConcat(p, [last], keep);
    FilterSingle(last, t);
  }

  /** Stability: for every start time, the calls with that start time are in the same order before and after sorting. */
  lemma {:induction false} SortStable(s: seq<CallRecord>, t: int)
    ensures WithStart(SortByStart(s), t) == WithStart(s, t)
  {
    if s != [] {
      var p, last := s[..|s| - 1], s[|s| - 1];
      assert s == p + [last];
      SortStable(p, t);
      InsertStable(SortByStart(p), last, t);
      FilterConcat(p, [last], StartsAt(t));
    }
  }

  /** Inserting a call whose index exceeds every index in `s` keeps ties in index order. */
  lemma {:induction false} InsertTiesByIndex(s: seq<CallRecord>, x: CallRecord)
    requires TiesByIndex(s)
    requires forall i :: 0 <= i < |s| ==> s[i].index < x.index
    ensures TiesByIndex(Insert(s, x))
  {
    if !(s == [] || s[|s| - 1].startMs <= x.startMs) {
      var p, last := s[..|s| - 1], s[|s| - 1];
      InsertTiesByIndex(p, x);
      InsertPermutation(p, x);
      var q := Insert(p, x);
      var r := q + [last];
      assert r == Insert(s, x);
      forall i | 0 <= i < |q| && q[i].startMs == last.startMs
        ensures q[i].index < last.index
      {
        assert q[i] in multiset(q);
        if q[i] != x {
          assert q[i] in multiset(p);
          var j :| 0 <= j < |p| && p[j] == q[i];
          assert s[j] == p[j];
        }
      }
    }
  }

  /** For input in index order, the sorted calls with equal start times are in index order: the sort is stable. */
  lemma {:induction false} SortTiesByIndex(s: seq<CallRecord>)
    requires IndicesIncrease(s)
    ensures TiesByIndex(SortByStart(s))
  {
    if s != [] {
      var p, last := s[..|s| - 1], s[|s| - 1];
      SortTiesByIndex(p);
      var q := SortByStart(p);
      SortByStartSpec(p);
      forall i | 0 <= i < |q|
        ensures q[i].index < last.index
      {
        assert q[i] in multiset(p);
        var j :| 0 <= j < |p| && p[j] == q[i];
        assert s[j] == p[j];
      }
      InsertTiesByIndex(q, last);
    }
  }

  /**
    The in-place sort of `validCalls`: sorts the array by start time, ties in
    their original order, by insertion from the right.
  */
  method SortCalls(a: array<CallRecord>)
    modifies a
    ensures a[..] == SortByStart(old(a[..]))
  {
    ghost var input := a[..];
    var i := 0;
    while i < a.Length
      invariant 0 <= i <= a.Length
      invariant a[..i] == SortByStart(input[..i])
      invariant forall k :: i <= k < a.Length ==> a[k] == input[k]
    {
      SortPrefixStep(input, i);
      InsertAt(a, i);
      i := i + 1;
    }
    assert a[..] == a[..a.Length] && input == input[..a.Length];
  }

  /** Sorting one more element of the input inserts it into the sorted prefix. */
  lemma SortPrefixStep(input: seq<CallRecord>, i: nat)
    requires i < |input|
    ensures SortByStart(input[..i + 1]) == Insert(SortByStart(input[..i]), input[i])
  {
    assert input[..i + 1][..i] == input[..i];
  }

  /** Inserts `a[i]` into the sorted prefix `a[..i]`, shifting later-starting calls one place right. */
  method InsertAt(a: array<CallRecord>, i: nat)
    requires i < a.Length
    modifies a
    ensures a[..i + 1] == Insert(old(a[..i]), old(a[i]))
    ensures forall k :: i < k < a.Length ==> a[k] == old(a[k])
  {
    ghost var sorted := a[..i];
    var x := a[i];
    var j := i;
    while j > 0 && a[j - 1].startMs > x.startMs
      invariant 0 <= j <= i
      invariant forall k :: 0 <= k < j ==> a[k] == sorted[k]
      invariant forall k :: j < k <= i ==> a[k] == sorted[k - 1]
      invariant forall k :: i < k < a.Length ==> a[k] == old(a[k])
      invariant forall k :: j <= k < i ==> sorted[k].startMs > x.startMs
    {
      a[j] := a[j - 1];
      j := j - 1;
    }
    InsertPosition(sorted, j, x);
    a[j] := x;
  }

  /**
    `x` goes after the calls that start no later than it and before the run
    of later-starting calls at the end.
  */
  lemma {:induction false} InsertPosition(s: seq<CallRecord>, j: nat, x: CallRecord)
    requires j <= |s|
    requires j == 0 || s[j - 1].startMs <= x.startMs
    requires forall k :: j <= k < |s| ==> s[k].startMs > x.startMs
    ensures var r := Insert(s, x);
      && (forall k :: 0 <= k < j ==> r[k] == s[k])
      && r[j] == x
      && (forall k :: j < k <= |s| ==> r[k] == s[k - 1])
  {
    if j < |s| {
      var p := s[..|s| - 1];
      InsertPosition(p, j, x);
      assert Insert(s, x) == Insert(p, x) + [s[|s| - 1]];
    }
  }
}
