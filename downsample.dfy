/**
 * Stage 0 of the detector: keep one signal per vessel and minute.
 *
 * The signals are sorted by time and grouped by (mmsi, minute); each group
 * keeps its first (earliest) signal, and the group's minute becomes the
 * row's timestamp. Groups come out in ascending (mmsi, minute) order.
 */
module Downsampling {
  import opened Wrappers
  import opened Ordering
  import opened Ais

  /** The grouping key of a signal: its vessel and the minute it falls in. */
  function Key(s: Signal): (int, int) { (s.mmsi, s.utc / SecondsPerMinute) }

  function Keys(sigs: seq<Signal>): (ks: seq<(int, int)>)
    ensures |ks| == |sigs|
    ensures forall i :: 0 <= i < |sigs| ==> ks[i] == Key(sigs[i])
  {
    if sigs == [] then [] else [Key(sigs[0])] + Keys(sigs[1..])
  }

  /**
   * The earliest signal with key `k`; among signals with the same time the
   * one that comes first in the input.
   */
  function Earliest(sigs: seq<Signal>, k: (int, int)): (r: Option<Signal>)
    ensures r.None? <==> forall s :: s in sigs ==> Key(s) != k
    ensures r.Some? ==> r.value in sigs && Key(r.value) == k
    ensures r.Some? ==> forall s :: s in sigs && Key(s) == k ==> r.value.utc <= s.utc
  {
    if sigs == [] then None
    else
      var rest := Earliest(sigs[1..], k);
      if Key(sigs[0]) != k then rest
      else if rest.None? || sigs[0].utc <= rest.value.utc then Some(sigs[0])
      else rest
  }

  /** The row a group becomes: its earliest signal, stamped with the group's minute. */
  function AsRow(s: Signal): Signal { s.(utc := FloorToMinute(s.utc)) }

  lemma FloorKeepsKey(s: Signal)
    ensures Key(AsRow(s)) == Key(s)
  {
    var t := s.utc;
    var m := t / SecondsPerMinute;
    assert FloorToMinute(t) == m * SecondsPerMinute;
    assert (m * SecondsPerMinute) / SecondsPerMinute == m;
  }

  function Representatives(sigs: seq<Signal>, ks: seq<(int, int)>): (rows: seq<Signal>)
    requires forall k :: k in ks ==> k in Keys(sigs)
    ensures |rows| == |ks|
    ensures forall i :: 0 <= i < |ks| ==>
      Earliest(sigs, ks[i]).Some? && rows[i] == AsRow(Earliest(sigs, ks[i]).value)
  {
    if ks == [] then []
    else
      assert ks[0] in Keys(sigs);
      var e := Earliest(sigs, ks[0]);
      assert e.Some? by {
        var i :| 0 <= i < |Keys(sigs)| && Keys(sigs)[i] == ks[0];
        assert sigs[i] in sigs && Key(sigs[i]) == ks[0];
      }
      [AsRow(e.value)] + Representatives(sigs, ks[1..])
  }

  /** The (mmsi, minute) groups of the input, in the order the groupby visits them. */
  function GroupKeys(sigs: seq<Signal>): (ks: seq<(int, int)>)
    ensures StrictlySorted(ks, PairLess)
    ensures forall k :: k in ks <==> k in Keys(sigs)
  {
    PairLessIsStrictTotal();
    SortedDistinct(Keys(sigs), PairLess)
  }

  /** The downsampled table: one row per (mmsi, minute), in key order. */
  function Downsample(sigs: seq<Signal>): seq<Signal>
  {
    Representatives(sigs, GroupKeys(sigs))
  }

  /** `row` is the earliest signal of its (mmsi, minute) group, stamped with the minute. */
  ghost predicate IsEarliestOfGroup(sigs: seq<Signal>, row: Signal) {
    exists s :: s in sigs && row == AsRow(s) &&
      forall s' :: s' in sigs && Key(s') == Key(s) ==> s.utc <= s'.utc
  }

  /** Row `i` of the downsampled table holds the `i`-th group key, in its earliest signal. */
  lemma DownsampleRow(sigs: seq<Signal>, i: int)
    requires 0 <= i < |Downsample(sigs)|
    ensures var ks := GroupKeys(sigs);
      i < |ks| && Key(Downsample(sigs)[i]) == ks[i] && IsEarliestOfGroup(sigs, Downsample(sigs)[i])
  {
    var ks := GroupKeys(sigs);
    var e := Earliest(sigs, ks[i]).value;
    FloorKeepsKey(e);
  }

  /** Rows come out in strictly ascending (mmsi, minute) order: no key appears twice. */
  lemma DownsampleKeysAscending(sigs: seq<Signal>)
    ensures var rows := Downsample(sigs);
      forall i, j :: 0 <= i < j < |rows| ==> PairLess(Key(rows[i]), Key(rows[j]))
  {
    var rows := Downsample(sigs);
    forall i, j | 0 <= i < j < |rows| ensures PairLess(Key(rows[i]), Key(rows[j])) {
      DownsampleRow(sigs, i);
      DownsampleRow(sigs, j);
    }
  }

  lemma RowForSignal(sigs: seq<Signal>, n: int) returns (i: int)
    requires 0 <= n < |sigs|
    ensures 0 <= i < |Downsample(sigs)| && Key(Downsample(sigs)[i]) == Key(sigs[n])
  {
    var ks := GroupKeys(sigs);
    assert Keys(sigs)[n] == Key(sigs[n]);
    assert Key(sigs[n]) in ks;
    i :| 0 <= i < |ks| && ks[i] == Key(sigs[n]);
    DownsampleRow(sigs, i);
  }

  /** Every (mmsi, minute) present in the input has a row. */
  lemma DownsampleCoversEveryMinute(sigs: seq<Signal>)
    ensures var rows := Downsample(sigs);
      forall s :: s in sigs ==> exists i :: 0 <= i < |rows| && Key(rows[i]) == Key(s)
  {
    var rows := Downsample(sigs);
    forall s | s in sigs
      ensures exists i :: 0 <= i < |rows| && Key(rows[i]) == Key(s)
    {
      var n :| 0 <= n < |sigs| && sigs[n] == s;
      var i := RowForSignal(sigs, n);
    }
  }

  /** Each row is the earliest signal of its (mmsi, minute) group. */
  lemma DownsampleKeepsEarliest(sigs: seq<Signal>)
    ensures var rows := Downsample(sigs);
      forall i :: 0 <= i < |rows| ==> IsEarliestOfGroup(sigs, rows[i])
  {
    var rows := Downsample(sigs);
    forall i | 0 <= i < |rows| ensures IsEarliestOfGroup(sigs, rows[i]) {
      DownsampleRow(sigs, i);
    }
  }
}
