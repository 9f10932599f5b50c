/**
 * Stage 1 of the detector: proximity detection.
 *
 * Rows are grouped by their 5-minute bucket (buckets visited in ascending
 * order). In each bucket with at least two rows, every row `i` below the
 * speed threshold is matched with each neighbour `j > i` within the
 * proximity radius that is also below the threshold; each match becomes an
 * interaction keyed by (min mmsi, max mmsi) at the midpoint of the two rows.
 * Pairing is over rows, not vessels: a bucket holds up to five rows per
 * vessel, so one pair can match several times and a vessel can match one of
 * its own rows.
 */
module Pairing {
  import opened Ordering
  import opened Geo
  import opened Ais

  datatype Interaction = Interaction(mmsi1: int, mmsi2: int, utc: int, lat: real, lon: real)

  function BucketOf(r: Signal): int { FloorTo5Min(r.utc) }

  function BucketStarts(rows: seq<Signal>): (ts: seq<int>)
    ensures |ts| == |rows|
    ensures forall i :: 0 <= i < |rows| ==> ts[i] == BucketOf(rows[i])
  {
    if rows == [] then [] else [BucketOf(rows[0])] + BucketStarts(rows[1..])
  }

  /** The 5-minute buckets that hold at least one row, ascending. */
  function Buckets(rows: seq<Signal>): (bs: seq<int>)
    ensures StrictlySorted(bs, IntLess)
    ensures forall b :: b in bs <==> b in BucketStarts(rows)
  {
    IntLessIsStrictTotal();
    SortedDistinct(BucketStarts(rows), IntLess)
  }

  /** The rows of bucket `b`, in table order, each as often as it occurs. */
  function InBucket(rows: seq<Signal>, b: int): (g: seq<Signal>)
    ensures forall r :: r in g <==> r in rows && BucketOf(r) == b
    ensures forall r :: multiset(g)[r] == if BucketOf(r) == b then multiset(rows)[r] else 0
  {
    if rows == [] then []
    else
      assert rows == [rows[0]] + rows[1..];
      (if BucketOf(rows[0]) == b then [rows[0]] else []) + InBucket(rows[1..], b)
  }

  /** Row `b` lies within `radiusKm` of row `a` (the radius test of a ball-tree query from `a`). */
  function Near(a: Signal, b: Signal, radiusKm: real, dist: (Pos, Pos) -> real): bool {
    dist(Position(a), Position(b)) <= radiusKm
  }

  function NeighborsFrom(g: seq<Signal>, i: int, from: int, radiusKm: real,
                         dist: (Pos, Pos) -> real): (nb: seq<int>)
    requires 0 <= i < |g| && 0 <= from <= |g|
    ensures forall k :: 0 <= k < |nb| ==> from <= nb[k] < |g| && Near(g[i], g[nb[k]], radiusKm, dist)
    ensures forall j :: from <= j < |g| && Near(g[i], g[j], radiusKm, dist) ==> j in nb
    decreases |g| - from
  {
    if from == |g| then []
    else
      (if Near(g[i], g[from], radiusKm, dist) then [from] else [])
        + NeighborsFrom(g, i, from + 1, radiusKm, dist)
  }

  /**
   * The indices of the rows of `g` within `radiusKm` of row `i`, row `i`
   * itself included when it is within the radius of itself; each index
   * once, in ascending order.
   */
  function Neighbors(g: seq<Signal>, i: int, radiusKm: real, dist: (Pos, Pos) -> real): (nb: seq<int>)
    requires 0 <= i < |g|
    ensures forall k :: 0 <= k < |nb| ==> 0 <= nb[k] < |g|
    ensures forall j :: 0 <= j < |g| ==> (j in nb <==> Near(g[i], g[j], radiusKm, dist))
  {
    NeighborsFrom(g, i, 0, radiusKm, dist)
  }

  lemma {:induction false} NeighborsFromAscending(g: seq<Signal>, i: int, from: int, radiusKm: real,
                                                  dist: (Pos, Pos) -> real)
    requires 0 <= i < |g| && 0 <= from <= |g|
    ensures StrictlySorted(NeighborsFrom(g, i, from, radiusKm, dist), IntLess)
    decreases |g| - from
  {
    if from < |g| {
      NeighborsFromAscending(g, i, from + 1, radiusKm, dist);
      var tail := NeighborsFrom(g, i, from + 1, radiusKm, dist);
      var nb := NeighborsFrom(g, i, from, radiusKm, dist);
      if Near(g[i], g[from], radiusKm, dist) {
        assert nb == [from] + tail;
        ConsAscending(from, tail);
      } else {
        assert nb == tail;
      }
    }
  }

  lemma ConsAscending(x: int, tail: seq<int>)
    requires StrictlySorted(tail, IntLess) && forall k :: 0 <= k < |tail| ==> x < tail[k]
    ensures StrictlySorted([x] + tail, IntLess)
  {
    var s := [x] + tail;
    forall a, c | 0 <= a < c < |s| ensures IntLess(s[a], s[c]) {
      if a > 0 {
        assert IntLess(tail[a - 1], tail[c - 1]);
      }
    }
  }

  /** The neighbour list holds each index once, in ascending order. */
  lemma NeighborsAscending(g: seq<Signal>, i: int, radiusKm: real, dist: (Pos, Pos) -> real)
    requires 0 <= i < |g|
    ensures StrictlySorted(Neighbors(g, i, radiusKm, dist), IntLess)
  {
    NeighborsFromAscending(g, i, 0, radiusKm, dist);
  }

  /** The interaction recorded for rows `a` and `b` in bucket `t`. */
  function Meet(a: Signal, b: Signal, t: int): (x: Interaction)
    ensures x.mmsi1 <= x.mmsi2
    ensures (x.mmsi1, x.mmsi2) == (a.mmsi, b.mmsi) || (x.mmsi1, x.mmsi2) == (b.mmsi, a.mmsi)
    ensures x.utc == t
    ensures x.lat - a.lat == b.lat - x.lat && x.lon - a.lon == b.lon - x.lon
  {
    Interaction(
      if a.mmsi <= b.mmsi then a.mmsi else b.mmsi,
      if a.mmsi <= b.mmsi then b.mmsi else a.mmsi,
      t,
      (a.lat + b.lat) / 2.0,
      (a.lon + b.lon) / 2.0)
  }

  /** Interactions of row `i` with the neighbours listed in `nb`, in list order. */
  function MeetsVia(g: seq<Signal>, i: int, nb: seq<int>, t: int, sogThreshold: real): seq<Interaction>
    requires 0 <= i < |g|
    requires forall k :: 0 <= k < |nb| ==> 0 <= nb[k] < |g|
  {
    if nb == [] then []
    else
      var j := nb[|nb| - 1];
      MeetsVia(g, i, nb[..|nb| - 1], t, sogThreshold)
        + (if j <= i || g[j].sog >= sogThreshold then [] else [Meet(g[i], g[j], t)])
  }

  function RowMeets(g: seq<Signal>, i: int, t: int, p: Params, dist: (Pos, Pos) -> real): seq<Interaction>
    requires 0 <= i < |g|
  {
    if g[i].sog >= p.sogThreshold then []
    else MeetsVia(g, i, Neighbors(g, i, p.proximityKm, dist), t, p.sogThreshold)
  }

  function GroupMeetsUpTo(g: seq<Signal>, n: int, t: int, p: Params, dist: (Pos, Pos) -> real): seq<Interaction>
    requires 0 <= n <= |g|
  {
    if n == 0 then [] else GroupMeetsUpTo(g, n - 1, t, p, dist) + RowMeets(g, n - 1, t, p, dist)
  }

  /** The interactions found in one bucket `g` whose start time is `t`. */
  function GroupMeets(g: seq<Signal>, t: int, p: Params, dist: (Pos, Pos) -> real): seq<Interaction>
  {
    if |g| < 2 then [] else GroupMeetsUpTo(g, |g|, t, p, dist)
  }

  function MeetsOver(rows: seq<Signal>, bs: seq<int>, p: Params, dist: (Pos, Pos) -> real): seq<Interaction>
  {
    if bs == [] then []
    else
      var b := bs[|bs| - 1];
      MeetsOver(rows, bs[..|bs| - 1], p, dist) + GroupMeets(InBucket(rows, b), b, p, dist)
  }

  /** All interactions of the downsampled table, bucket by bucket. */
  function Interactions(rows: seq<Signal>, p: Params, dist: (Pos, Pos) -> real): seq<Interaction>
  {
    MeetsOver(rows, Buckets(rows), p, dist)
  }

  /**
   * The proximity-detection loop nest: buckets in ascending order; in each
   * bucket of two or more rows, each slow row against its neighbour list.
   */
  method FindInteractions(rows: seq<Signal>, p: Params, dist: (Pos, Pos) -> real)
    returns (found: seq<Interaction>)
    ensures found == Interactions(rows, p, dist)
  {
    found := [];
    var buckets := Buckets(rows);
    var n := 0;
    while n < |buckets|
      invariant 0 <= n <= |buckets|
      invariant found == MeetsOver(rows, buckets[..n], p, dist)
    {
      var time := buckets[n];
      var group := InBucket(rows, time);
      MeetsOverStep(rows, buckets, n, p, dist);
      if |group| >= 2 {
        var meets := PairBucket(group, time, p, dist);
        found := found + meets;
      }
      n := n + 1;
    }
    assert buckets[..n] == buckets;
  }

  lemma MeetsOverStep(rows: seq<Signal>, bs: seq<int>, n: int, p: Params, dist: (Pos, Pos) -> real)
    requires 0 <= n < |bs|
    ensures MeetsOver(rows, bs[..n + 1], p, dist)
      == MeetsOver(rows, bs[..n], p, dist) + GroupMeets(InBucket(rows, bs[n]), bs[n], p, dist)
  {
    assert bs[..n + 1][..n] == bs[..n];
  }

  /** One bucket of at least two rows: each slow row `i` against its neighbour list. */
  method PairBucket(group: seq<Signal>, time: int, p: Params, dist: (Pos, Pos) -> real)
    returns (found: seq<Interaction>)
    requires |group| >= 2
    ensures found == GroupMeets(group, time, p, dist)
  {
    var indices := QueryRadius(group, p.proximityKm, dist);
    found := [];
    var i := 0;
    while i < |group|
      invariant 0 <= i <= |group|
      invariant found == GroupMeetsUpTo(group, i, time, p, dist)
    {
      GroupMeetsUpToStep(group, i, time, p, dist);
      var meets := SlowRowMeets(group, i, indices[i], time, p, dist);
      found := found + meets;
      i := i + 1;
    }
  }

  lemma GroupMeetsUpToStep(g: seq<Signal>, i: int, t: int, p: Params, dist: (Pos, Pos) -> real)
    requires 0 <= i < |g|
    ensures GroupMeetsUpTo(g, i + 1, t, p, dist) == GroupMeetsUpTo(g, i, t, p, dist) + RowMeets(g, i, t, p, dist)
  {
  }

  /** The neighbour list of every row of the bucket, as one radius query. */
  method QueryRadius(group: seq<Signal>, radiusKm: real, dist: (Pos, Pos) -> real) returns (indices: seq<seq<int>>)
    ensures |indices| == |group|
    ensures forall i :: 0 <= i < |group| ==> indices[i] == Neighbors(group, i, radiusKm, dist)
  {
    indices := seq(|group|, i requires 0 <= i < |group| => Neighbors(group, i, radiusKm, dist));
  }

  /** Row `i` of the bucket: nothing when it is at or above the speed threshold. */
  method SlowRowMeets(group: seq<Signal>, i: int, neighbors: seq<int>, time: int, p: Params,
                      dist: (Pos, Pos) -> real) returns (found: seq<Interaction>)
    requires 0 <= i < |group| && neighbors == Neighbors(group, i, p.proximityKm, dist)
    ensures found == RowMeets(group, i, time, p, dist)
  {
    found := [];
    if group[i].sog < p.sogThreshold {
      found := PairRow(group, i, neighbors, time, p.sogThreshold);
    }
  }

  /** Row `i` against its neighbours: skip itself and earlier rows, and fast rows. */
  method PairRow(group: seq<Signal>, i: int, neighbors: seq<int>, time: int, sogThreshold: real)
    returns (found: seq<Interaction>)
    requires 0 <= i < |group|
    requires forall k :: 0 <= k < |neighbors| ==> 0 <= neighbors[k] < |group|
    ensures found == MeetsVia(group, i, neighbors, time, sogThreshold)
  {
    found := [];
    var k := 0;
    while k < |neighbors|
      invariant 0 <= k <= |neighbors|
      invariant found == MeetsVia(group, i, neighbors[..k], time, sogThreshold)
    {
      var j := neighbors[k];
      assert neighbors[..k + 1][..k] == neighbors[..k];
      if j > i && group[j].sog < sogThreshold {
        found := found + [Meet(group[i], group[j], time)];
      }
      k := k + 1;
    }
    assert neighbors[..k] == neighbors;
  }

  // ---------------------------------------------------------------------
  // What the interactions are
  // ---------------------------------------------------------------------

  /** Rows `i` and `j` of a bucket may be paired: both slow and `j` within the radius of `i`. */
  predicate Qualifies(g: seq<Signal>, i: int, j: int, p: Params, dist: (Pos, Pos) -> real)
    requires 0 <= i < |g| && 0 <= j < |g|
  {
    g[i].sog < p.sogThreshold && g[j].sog < p.sogThreshold && Near(g[i], g[j], p.proximityKm, dist)
  }

  /** `x` is the interaction of the qualifying rows `i < j` of bucket `g` starting at `t`. */
  ghost predicate PairMeets(g: seq<Signal>, i: int, j: int, t: int, p: Params, dist: (Pos, Pos) -> real,
                            x: Interaction)
  {
    0 <= i < j < |g| && Qualifies(g, i, j, p, dist) && x == Meet(g[i], g[j], t)
  }

  /** `x` is the interaction of some qualifying rows `i < j` of bucket `g` starting at `t`. */
  ghost predicate IsMeetIn(g: seq<Signal>, t: int, p: Params, dist: (Pos, Pos) -> real, x: Interaction) {
    exists i, j :: PairMeets(g, i, j, t, p, dist, x)
  }

  /** Row `j` of a bucket is matched by row `i` with result `x`. */
  ghost predicate MeetsAt(g: seq<Signal>, i: int, j: int, t: int, sogThreshold: real, x: Interaction)
    requires 0 <= i < |g| && 0 <= j < |g|
  {
    i < j && g[j].sog < sogThreshold && x == Meet(g[i], g[j], t)
  }

  /** One more neighbour: its match, if any, comes after those of the earlier ones. */
  lemma MeetsViaLast(g: seq<Signal>, i: int, nb: seq<int>, t: int, sogThreshold: real, x: Interaction)
    requires 0 <= i < |g| && nb != []
    requires forall k :: 0 <= k < |nb| ==> 0 <= nb[k] < |g|
    ensures x in MeetsVia(g, i, nb, t, sogThreshold) <==>
      x in MeetsVia(g, i, nb[..|nb| - 1], t, sogThreshold) || MeetsAt(g, i, nb[|nb| - 1], t, sogThreshold, x)
  {
  }

  lemma {:induction false} MeetsViaMembership(g: seq<Signal>, i: int, nb: seq<int>, t: int,
                                              sogThreshold: real, x: Interaction)
    requires 0 <= i < |g|
    requires forall k :: 0 <= k < |nb| ==> 0 <= nb[k] < |g|
    ensures x in MeetsVia(g, i, nb, t, sogThreshold) <==>
      exists k :: 0 <= k < |nb| && MeetsAt(g, i, nb[k], t, sogThreshold, x)
  {
    if nb != [] {
      var last := |nb| - 1;
      var init := nb[..last];
      MeetsViaMembership(g, i, init, t, sogThreshold, x);
      MeetsViaLast(g, i, nb, t, sogThreshold, x);
      if x in MeetsVia(g, i, nb, t, sogThreshold) {
        if !MeetsAt(g, i, nb[last], t, sogThreshold, x) {
          var k :| 0 <= k < last && MeetsAt(g, i, init[k], t, sogThreshold, x);
          assert init[k] == nb[k];
        }
      } else {
        forall k | 0 <= k < |nb| ensures !MeetsAt(g, i, nb[k], t, sogThreshold, x) {
          if k < last {
            assert init[k] == nb[k];
          }
        }
      }
    }
  }

  /** `x` is the interaction of row `i` with some qualifying later row of bucket `g`. */
  ghost predicate RowMeetsWith(g: seq<Signal>, i: int, t: int, p: Params, dist: (Pos, Pos) -> real, x: Interaction) {
    exists j :: PairMeets(g, i, j, t, p, dist, x)
  }

  lemma RowMeetsMembership(g: seq<Signal>, i: int, t: int, p: Params, dist: (Pos, Pos) -> real, x: Interaction)
    requires 0 <= i < |g|
    ensures x in RowMeets(g, i, t, p, dist) <==> RowMeetsWith(g, i, t, p, dist, x)
  {
    if g[i].sog < p.sogThreshold {
      var nb := Neighbors(g, i, p.proximityKm, dist);
      MeetsViaMembership(g, i, nb, t, p.sogThreshold, x);
      if x in RowMeets(g, i, t, p, dist) {
        var k :| 0 <= k < |nb| && MeetsAt(g, i, nb[k], t, p.sogThreshold, x);
        assert PairMeets(g, i, nb[k], t, p, dist, x);
      }
      if RowMeetsWith(g, i, t, p, dist, x) {
        var j :| PairMeets(g, i, j, t, p, dist, x);
        assert j in nb;
        var k :| 0 <= k < |nb| && nb[k] == j;
        assert MeetsAt(g, i, nb[k], t, p.sogThreshold, x);
      }
    }
  }

  /** One more row: its interactions are added after those of the earlier rows. */
  lemma GroupMeetsUpToRow(g: seq<Signal>, n: int, t: int, p: Params, dist: (Pos, Pos) -> real, x: Interaction)
    requires 0 < n <= |g|
    ensures x in GroupMeetsUpTo(g, n, t, p, dist) <==>
      x in GroupMeetsUpTo(g, n - 1, t, p, dist) || RowMeetsWith(g, n - 1, t, p, dist, x)
  {
    RowMeetsMembership(g, n - 1, t, p, dist, x);
  }

  lemma {:induction false} GroupMeetsUpToMembership(g: seq<Signal>, n: int, t: int, p: Params,
                                                    dist: (Pos, Pos) -> real, x: Interaction)
    requires 0 <= n <= |g|
    ensures x in GroupMeetsUpTo(g, n, t, p, dist) <==> exists i :: 0 <= i < n && RowMeetsWith(g, i, t, p, dist, x)
  {
    if n > 0 {
      GroupMeetsUpToMembership(g, n - 1, t, p, dist, x);
      GroupMeetsUpToRow(g, n, t, p, dist, x);
      if x in GroupMeetsUpTo(g, n, t, p, dist) {
        if RowMeetsWith(g, n - 1, t, p, dist, x) {
          assert 0 <= n - 1 < n;
        } else {
          var i :| 0 <= i < n - 1 && RowMeetsWith(g, i, t, p, dist, x);
          assert i < n;
        }
      } else {
        forall i | 0 <= i < n ensures !RowMeetsWith(g, i, t, p, dist, x) {
          if i < n - 1 {
            assert !(exists i' :: 0 <= i' < n - 1 && RowMeetsWith(g, i', t, p, dist, x));
          }
        }
      }
    }
  }

  /**
   * A bucket with fewer than two rows yields nothing; otherwise its
   * interactions are exactly the meets of its qualifying row pairs `i < j`.
   */
  lemma GroupMeetsMembership(g: seq<Signal>, t: int, p: Params, dist: (Pos, Pos) -> real, x: Interaction)
    ensures |g| < 2 ==> GroupMeets(g, t, p, dist) == []
    ensures x in GroupMeets(g, t, p, dist) <==> |g| >= 2 && IsMeetIn(g, t, p, dist, x)
  {
    if |g| >= 2 {
      GroupMeetsUpToMembership(g, |g|, t, p, dist, x);
      if IsMeetIn(g, t, p, dist, x) {
        var i, j :| PairMeets(g, i, j, t, p, dist, x);
        assert RowMeetsWith(g, i, t, p, dist, x);
      }
      if x in GroupMeets(g, t, p, dist) {
        var i :| 0 <= i < |g| && RowMeetsWith(g, i, t, p, dist, x);
        var j :| PairMeets(g, i, j, t, p, dist, x);
      }
    }
  }

  /** `x` is among the interactions of bucket `b`. */
  ghost predicate FoundIn(rows: seq<Signal>, b: int, p: Params, dist: (Pos, Pos) -> real, x: Interaction) {
    x in GroupMeets(InBucket(rows, b), b, p, dist)
  }

  lemma {:induction false} MeetsOverMembership(rows: seq<Signal>, bs: seq<int>, p: Params,
                                               dist: (Pos, Pos) -> real, x: Interaction)
    ensures x in MeetsOver(rows, bs, p, dist) <==> exists b :: b in bs && FoundIn(rows, b, p, dist, x)
  {
    if bs != [] {
      var last := |bs| - 1;
      var init := bs[..last];
      var b := bs[last];
      var before := MeetsOver(rows, init, p, dist);
      var here := GroupMeets(InBucket(rows, b), b, p, dist);
      MeetsOverMembership(rows, init, p, dist, x);
      assert MeetsOver(rows, bs, p, dist) == before + here;
      assert x in MeetsOver(rows, bs, p, dist) <==> x in before || FoundIn(rows, b, p, dist, x);
      FoundInLast(rows, bs, p, dist, x);
    }
  }

  /** A bucket list finds `x` when its last bucket does or the ones before it do. */
  lemma FoundInLast(rows: seq<Signal>, bs: seq<int>, p: Params, dist: (Pos, Pos) -> real, x: Interaction)
    requires bs != []
    ensures (exists b :: b in bs && FoundIn(rows, b, p, dist, x))
        <==> (exists b :: b in bs[..|bs| - 1] && FoundIn(rows, b, p, dist, x)) || FoundIn(rows, bs[|bs| - 1], p, dist, x)
  {
    var init := bs[..|bs| - 1];
    assert bs == init + [bs[|bs| - 1]];
    if exists b :: b in bs && FoundIn(rows, b, p, dist, x) {
      var b :| b in bs && FoundIn(rows, b, p, dist, x);
      if b != bs[|bs| - 1] {
        assert b in init;
      }
    }
    if exists b :: b in init && FoundIn(rows, b, p, dist, x) {
      var b :| b in init && FoundIn(rows, b, p, dist, x);
      assert b in bs;
    }
  }

  /**
   * An interaction is emitted exactly for a pair of qualifying rows `i < j`
   * of one 5-minute bucket holding at least two rows; it carries the bucket's
   * start time, the ordered vessel pair and the midpoint of the two rows.
   */
  lemma InteractionsExactly(rows: seq<Signal>, p: Params, dist: (Pos, Pos) -> real, x: Interaction)
    ensures x in Interactions(rows, p, dist) <==>
      exists b :: b in Buckets(rows) && |InBucket(rows, b)| >= 2 && IsMeetIn(InBucket(rows, b), b, p, dist, x)
  {
    MeetsOverMembership(rows, Buckets(rows), p, dist, x);
    if x in Interactions(rows, p, dist) {
      var b :| b in Buckets(rows) && FoundIn(rows, b, p, dist, x);
      FoundInExactly(rows, b, p, dist, x);
    }
    if exists b :: b in Buckets(rows) && |InBucket(rows, b)| >= 2 && IsMeetIn(InBucket(rows, b), b, p, dist, x) {
      var b :| b in Buckets(rows) && |InBucket(rows, b)| >= 2 && IsMeetIn(InBucket(rows, b), b, p, dist, x);
      FoundInExactly(rows, b, p, dist, x);
    }
  }

  lemma FoundInExactly(rows: seq<Signal>, b: int, p: Params, dist: (Pos, Pos) -> real, x: Interaction)
    ensures FoundIn(rows, b, p, dist, x) <==> |InBucket(rows, b)| >= 2 && IsMeetIn(InBucket(rows, b), b, p, dist, x)
  {
    GroupMeetsMembership(InBucket(rows, b), b, p, dist, x);
  }

  /** Every interaction has `mmsi1 <= mmsi2` and a bucket-aligned time. */
  lemma InteractionShape(rows: seq<Signal>, p: Params, dist: (Pos, Pos) -> real, x: Interaction)
    requires x in Interactions(rows, p, dist)
    ensures x.mmsi1 <= x.mmsi2
    ensures x.utc in Buckets(rows) && x.utc % BucketSeconds == 0
  {
    InteractionsExactly(rows, p, dist, x);
    var b :| b in Buckets(rows) && |InBucket(rows, b)| >= 2 && IsMeetIn(InBucket(rows, b), b, p, dist, x);
    var n :| 0 <= n < |rows| && BucketStarts(rows)[n] == b;
  }

  ghost predicate TimeOrdered(xs: seq<Interaction>) {
    forall k, l :: 0 <= k < l < |xs| ==> xs[k].utc <= xs[l].utc
  }

  lemma GroupMeetsAtBucketTime(g: seq<Signal>, t: int, p: Params, dist: (Pos, Pos) -> real)
    ensures forall x :: x in GroupMeets(g, t, p, dist) ==> x.utc == t
  {
    forall x | x in GroupMeets(g, t, p, dist) ensures x.utc == t {
      GroupMeetsMembership(g, t, p, dist, x);
    }
  }

  lemma ConcatTimeOrdered(a: seq<Interaction>, b: seq<Interaction>, t: int)
    requires TimeOrdered(a) && (forall x :: x in a ==> x.utc < t) && (forall x :: x in b ==> x.utc == t)
    ensures TimeOrdered(a + b)
  {
    var xs := a + b;
    forall k, l | 0 <= k < l < |xs| ensures xs[k].utc <= xs[l].utc {
      if l < |a| {
        assert xs[k] == a[k] && xs[l] == a[l];
      } else if k >= |a| {
        assert xs[k] == b[k - |a|] && xs[l] == b[l - |a|];
      } else {
        assert xs[k] == a[k] && xs[l] == b[l - |a|];
      }
    }
  }

  /** Interactions come out in non-decreasing time order (bucket by bucket). */
  lemma {:induction false} MeetsOverTimeOrdered(rows: seq<Signal>, bs: seq<int>, p: Params,
                                                dist: (Pos, Pos) -> real)
    requires StrictlySorted(bs, IntLess)
    ensures forall x :: x in MeetsOver(rows, bs, p, dist) ==> x.utc in bs
    ensures TimeOrdered(MeetsOver(rows, bs, p, dist))
  {
    if bs != [] {
      var last := |bs| - 1;
      var b := bs[last];
      var prev := MeetsOver(rows, bs[..last], p, dist);
      var here := GroupMeets(InBucket(rows, b), b, p, dist);
      MeetsOverTimeOrdered(rows, bs[..last], p, dist);
      GroupMeetsAtBucketTime(InBucket(rows, b), b, p, dist);
      forall x | x in prev ensures x.utc in bs && x.utc < b {
        var m :| 0 <= m < last && bs[..last][m] == x.utc;
        assert bs[m] == x.utc;
      }
      ConcatTimeOrdered(prev, here, b);
      assert MeetsOver(rows, bs, p, dist) == prev + here;
    }
  }

  lemma InteractionsTimeOrdered(rows: seq<Signal>, p: Params, dist: (Pos, Pos) -> real)
    ensures TimeOrdered(Interactions(rows, p, dist))
  {
    MeetsOverTimeOrdered(rows, Buckets(rows), p, dist);
    assert Interactions(rows, p, dist) == MeetsOver(rows, Buckets(rows), p, dist);
  }

  /**
   * A vessel can be paired with its own row from another minute of the same
   * bucket: the interaction then has `mmsi1 == mmsi2`.
   */
  lemma SelfPairing(g: seq<Signal>, t: int, p: Params, dist: (Pos, Pos) -> real, i: int, j: int)
    requires IsDistance(dist) && p.proximityKm >= 0.0
    requires 0 <= i < j < |g|
    requires g[i].mmsi == g[j].mmsi && Position(g[i]) == Position(g[j])
    requires g[i].sog < p.sogThreshold && g[j].sog < p.sogThreshold
    ensures Interaction(g[i].mmsi, g[i].mmsi, t, g[i].lat, g[i].lon) in GroupMeets(g, t, p, dist)
  {
    var x := Meet(g[i], g[j], t);
    assert dist(Position(g[i]), Position(g[i])) == 0.0;
    assert PairMeets(g, i, j, t, p, dist, x);
    GroupMeetsMembership(g, t, p, dist, x);
    assert x == Interaction(g[i].mmsi, g[i].mmsi, t, g[i].lat, g[i].lon);
  }

  /** The rows paired by an interaction of bucket `b` are rows of the table below the speed threshold. */
  lemma MeetHasSlowRow(rows: seq<Signal>, b: int, p: Params, dist: (Pos, Pos) -> real, x: Interaction)
    requires IsMeetIn(InBucket(rows, b), b, p, dist, x)
    ensures exists r :: r in rows && r.sog < p.sogThreshold
  {
    var g := InBucket(rows, b);
    var i, j :| PairMeets(g, i, j, b, p, dist, x);
    assert g[i] in g;
  }

  /** Some interaction is found only if some row is below the speed threshold. */
  lemma InteractionNeedsSlowRow(rows: seq<Signal>, p: Params, dist: (Pos, Pos) -> real)
    ensures Interactions(rows, p, dist) != [] ==> exists r :: r in rows && r.sog < p.sogThreshold
  {
    var xs := Interactions(rows, p, dist);
    if xs != [] {
      var x := xs[0];
      InteractionsExactly(rows, p, dist, x);
      var b :| b in Buckets(rows) && |InBucket(rows, b)| >= 2 && IsMeetIn(InBucket(rows, b), b, p, dist, x);
      MeetHasSlowRow(rows, b, p, dist, x);
    }
  }

  /** The interaction of two rows does not depend on which of them comes first. */
  lemma MeetSymmetric(a: Signal, b: Signal, t: int)
    ensures Meet(a, b, t) == Meet(b, a, t)
  {
  }

  // ---------------------------------------------------------------------
  // Reference definition: the nested loop over all pairs of rows
  // ---------------------------------------------------------------------

  /** Row `i` against rows `from`, `from + 1`, ... in index order, with no radius query. */
  function ScanFrom(g: seq<Signal>, i: int, from: int, t: int, p: Params, dist: (Pos, Pos) -> real): seq<Interaction>
    requires 0 <= i < |g| && 0 <= from <= |g|
    decreases |g| - from
  {
    if from == |g| then []
    else
      (if i < from && Qualifies(g, i, from, p, dist) then [Meet(g[i], g[from], t)] else [])
        + ScanFrom(g, i, from + 1, t, p, dist)
  }

  /** Every pair `i < j` of the bucket with `i < n`, `i` in the outer loop and `j` in the inner one. */
  function AllPairsUpTo(g: seq<Signal>, n: int, t: int, p: Params, dist: (Pos, Pos) -> real): seq<Interaction>
    requires 0 <= n <= |g|
  {
    if n == 0 then [] else AllPairsUpTo(g, n - 1, t, p, dist) + ScanFrom(g, n - 1, n, t, p, dist)
  }

  function AllPairs(g: seq<Signal>, t: int, p: Params, dist: (Pos, Pos) -> real): seq<Interaction>
  {
    AllPairsUpTo(g, |g|, t, p, dist)
  }

  lemma {:induction false} MeetsViaAppend(g: seq<Signal>, i: int, a: seq<int>, b: seq<int>, t: int,
                                          sogThreshold: real)
    requires 0 <= i < |g|
    requires forall k :: 0 <= k < |a| ==> 0 <= a[k] < |g|
    requires forall k :: 0 <= k < |b| ==> 0 <= b[k] < |g|
    ensures forall k :: 0 <= k < |a + b| ==> 0 <= (a + b)[k] < |g|
    ensures MeetsVia(g, i, a + b, t, sogThreshold) == MeetsVia(g, i, a, t, sogThreshold) + MeetsVia(g, i, b, t, sogThreshold)
    decreases |b|
  {
    if b == [] {
      assert a + b == a;
    } else {
      var front := b[..|b| - 1];
      assert (a + b)[..|a + b| - 1] == a + front;
      assert (a + b)[|a + b| - 1] == b[|b| - 1];
      MeetsViaAppend(g, i, a, front, t, sogThreshold);
    }
  }

  /** For a slow row, its neighbour list from `from` on yields what the plain scan from `from` yields. */
  lemma {:induction false} NeighborsScan(g: seq<Signal>, i: int, from: int, t: int, p: Params,
                                         dist: (Pos, Pos) -> real)
    requires 0 <= i < |g| && 0 <= from <= |g| && g[i].sog < p.sogThreshold
    ensures MeetsVia(g, i, NeighborsFrom(g, i, from, p.proximityKm, dist), t, p.sogThreshold)
         == ScanFrom(g, i, from, t, p, dist)
    decreases |g| - from
  {
    if from < |g| {
      NeighborsScan(g, i, from + 1, t, p, dist);
      NeighborsScanStep(g, i, from, t, p, dist);
      var step := if i < from && Qualifies(g, i, from, p, dist) then [Meet(g[i], g[from], t)] else [];
      SamePrefixSameSeq(step, MeetsVia(g, i, NeighborsFrom(g, i, from + 1, p.proximityKm, dist), t, p.sogThreshold),
                        ScanFrom(g, i, from + 1, t, p, dist));
    } else {
      NeighborsScanEnd(g, i, t, p, dist);
    }
  }

  lemma NeighborsScanEnd(g: seq<Signal>, i: int, t: int, p: Params, dist: (Pos, Pos) -> real)
    requires 0 <= i < |g|
    ensures MeetsVia(g, i, NeighborsFrom(g, i, |g|, p.proximityKm, dist), t, p.sogThreshold) == []
    ensures ScanFrom(g, i, |g|, t, p, dist) == []
  {
    assert NeighborsFrom(g, i, |g|, p.proximityKm, dist) == [];
  }

  /** One more candidate row: the neighbour loop and the scan take the same step. */
  lemma NeighborsScanStep(g: seq<Signal>, i: int, from: int, t: int, p: Params, dist: (Pos, Pos) -> real)
    requires 0 <= i < |g| && 0 <= from < |g| && g[i].sog < p.sogThreshold
    ensures var step := if i < from && Qualifies(g, i, from, p, dist) then [Meet(g[i], g[from], t)] else [];
      && MeetsVia(g, i, NeighborsFrom(g, i, from, p.proximityKm, dist), t, p.sogThreshold)
         == step + MeetsVia(g, i, NeighborsFrom(g, i, from + 1, p.proximityKm, dist), t, p.sogThreshold)
      && ScanFrom(g, i, from, t, p, dist) == step + ScanFrom(g, i, from + 1, t, p, dist)
  {
    var head := if Near(g[i], g[from], p.proximityKm, dist) then [from] else [];
    var tail := NeighborsFrom(g, i, from + 1, p.proximityKm, dist);
    assert NeighborsFrom(g, i, from, p.proximityKm, dist) == head + tail;
    MeetsViaAppend(g, i, head, tail, t, p.sogThreshold);
    MeetsViaOne(g, i, from, t, p.sogThreshold);
  }

  lemma SamePrefixSameSeq<T>(step: seq<T>, a: seq<T>, b: seq<T>)
    requires a == b
    ensures step + a == step + b
  {
  }

  lemma MeetsViaOne(g: seq<Signal>, i: int, j: int, t: int, sogThreshold: real)
    requires 0 <= i < |g| && 0 <= j < |g|
    ensures MeetsVia(g, i, [j], t, sogThreshold)
         == if j <= i || g[j].sog >= sogThreshold then [] else [Meet(g[i], g[j], t)]
  {
    assert [j][..0] == [];
  }

  lemma {:induction false} ScanSkipsEarlier(g: seq<Signal>, i: int, from: int, t: int, p: Params,
                                            dist: (Pos, Pos) -> real)
    requires 0 <= i < |g| && 0 <= from <= i + 1
    ensures ScanFrom(g, i, from, t, p, dist) == ScanFrom(g, i, i + 1, t, p, dist)
    decreases i + 1 - from
  {
    if from < i + 1 {
      ScanSkipsEarlier(g, i, from + 1, t, p, dist);
    }
  }

  lemma {:induction false} FastRowScansNothing(g: seq<Signal>, i: int, from: int, t: int, p: Params,
                                               dist: (Pos, Pos) -> real)
    requires 0 <= i < |g| && 0 <= from <= |g| && g[i].sog >= p.sogThreshold
    ensures ScanFrom(g, i, from, t, p, dist) == []
    decreases |g| - from
  {
    if from < |g| {
      FastRowScansNothing(g, i, from + 1, t, p, dist);
    }
  }

  /** Row `i`'s radius-query loop yields exactly the scan of the rows after it. */
  lemma RowMeetsIsScan(g: seq<Signal>, i: int, t: int, p: Params, dist: (Pos, Pos) -> real)
    requires 0 <= i < |g|
    ensures RowMeets(g, i, t, p, dist) == ScanFrom(g, i, i + 1, t, p, dist)
  {
    if g[i].sog >= p.sogThreshold {
      FastRowScansNothing(g, i, i + 1, t, p, dist);
    } else {
      NeighborsScan(g, i, 0, t, p, dist);
      ScanSkipsEarlier(g, i, 0, t, p, dist);
    }
  }

  lemma {:induction false} GroupMeetsUpToAllPairs(g: seq<Signal>, n: int, t: int, p: Params, dist: (Pos, Pos) -> real)
    requires 0 <= n <= |g|
    ensures GroupMeetsUpTo(g, n, t, p, dist) == AllPairsUpTo(g, n, t, p, dist)
  {
    if n > 0 {
      GroupMeetsUpToAllPairs(g, n - 1, t, p, dist);
      RowMeetsIsScan(g, n - 1, t, p, dist);
    }
  }

  /**
   * The radius-query loops over a bucket produce exactly what the nested
   * loop over all pairs of rows `i < j` produces: the same interactions,
   * in the same order, each as often.
   */
  lemma GroupMeetsAllPairs(g: seq<Signal>, t: int, p: Params, dist: (Pos, Pos) -> real)
    ensures GroupMeets(g, t, p, dist) == AllPairs(g, t, p, dist)
  {
    GroupMeetsUpToAllPairs(g, |g|, t, p, dist);
    if |g| == 1 {
      assert AllPairsUpTo(g, 1, t, p, dist) == AllPairsUpTo(g, 0, t, p, dist) + ScanFrom(g, 0, 1, t, p, dist);
    }
  }

  // ---------------------------------------------------------------------
  // Multiplicity
  // ---------------------------------------------------------------------

  /** The pairs of rows `i < j` of bucket `g` that meet with result `x`. */
  ghost function MeetPairs(g: seq<Signal>, t: int, p: Params, dist: (Pos, Pos) -> real, x: Interaction)
    : set<(int, int)>
  {
    set i, j | 0 <= i < j < |g| && PairMeets(g, i, j, t, p, dist, x) :: (i, j)
  }

  ghost function RowPairs(g: seq<Signal>, i: int, from: int, t: int, p: Params, dist: (Pos, Pos) -> real,
                          x: Interaction): set<(int, int)>
  {
    set j | from <= j < |g| && PairMeets(g, i, j, t, p, dist, x) :: (i, j)
  }

  ghost function PairsUpTo(g: seq<Signal>, n: int, t: int, p: Params, dist: (Pos, Pos) -> real,
                           x: Interaction): set<(int, int)>
  {
    set i, j | 0 <= i < n && i < j < |g| && PairMeets(g, i, j, t, p, dist, x) :: (i, j)
  }

  lemma {:induction false} ScanCount(g: seq<Signal>, i: int, from: int, t: int, p: Params,
                                     dist: (Pos, Pos) -> real, x: Interaction)
    requires 0 <= i < |g| && 0 <= from <= |g|
    ensures multiset(ScanFrom(g, i, from, t, p, dist))[x] == |RowPairs(g, i, from, t, p, dist, x)|
    decreases |g| - from
  {
    if from == |g| {
      assert RowPairs(g, i, from, t, p, dist, x) == {};
    } else {
      ScanCount(g, i, from + 1, t, p, dist, x);
      RowPairsSize(g, i, from, t, p, dist, x);
      ScanFromCountStep(g, i, from, t, p, dist, x);
    }
  }

  lemma RowPairsSize(g: seq<Signal>, i: int, from: int, t: int, p: Params, dist: (Pos, Pos) -> real, x: Interaction)
    requires 0 <= i < |g| && 0 <= from < |g|
    ensures |RowPairs(g, i, from, t, p, dist, x)|
         == (if PairMeets(g, i, from, t, p, dist, x) then 1 else 0) + |RowPairs(g, i, from + 1, t, p, dist, x)|
  {
    var rest := RowPairs(g, i, from + 1, t, p, dist, x);
    var here: set<(int, int)> := if PairMeets(g, i, from, t, p, dist, x) then {(i, from)} else {};
    assert RowPairs(g, i, from, t, p, dist, x) == here + rest;
    assert here * rest == {};
  }

  lemma ScanFromCountStep(g: seq<Signal>, i: int, from: int, t: int, p: Params, dist: (Pos, Pos) -> real,
                          x: Interaction)
    requires 0 <= i < |g| && 0 <= from < |g|
    ensures multiset(ScanFrom(g, i, from, t, p, dist))[x]
         == (if PairMeets(g, i, from, t, p, dist, x) then 1 else 0) + multiset(ScanFrom(g, i, from + 1, t, p, dist))[x]
  {
    var head := if i < from && Qualifies(g, i, from, p, dist) then [Meet(g[i], g[from], t)] else [];
    var rest := ScanFrom(g, i, from + 1, t, p, dist);
    assert ScanFrom(g, i, from, t, p, dist) == head + rest;
    assert multiset(head + rest) == multiset(head) + multiset(rest);
  }

  lemma {:induction false} AllPairsUpToCount(g: seq<Signal>, n: int, t: int, p: Params, dist: (Pos, Pos) -> real,
                                             x: Interaction)
    requires 0 <= n <= |g|
    ensures multiset(AllPairsUpTo(g, n, t, p, dist))[x] == |PairsUpTo(g, n, t, p, dist, x)|
  {
    if n == 0 {
      NoPairsUpToZero(g, t, p, dist, x);
    } else {
      AllPairsUpToCount(g, n - 1, t, p, dist, x);
      CountStep(g, n, t, p, dist, x);
    }
  }

  /** Row `n - 1` adds as many occurrences of `x` to the output as it adds pairs that meet as `x`. */
  lemma CountStep(g: seq<Signal>, n: int, t: int, p: Params, dist: (Pos, Pos) -> real, x: Interaction)
    requires 0 < n <= |g|
    ensures multiset(AllPairsUpTo(g, n, t, p, dist))[x] - multiset(AllPairsUpTo(g, n - 1, t, p, dist))[x]
         == |PairsUpTo(g, n, t, p, dist, x)| - |PairsUpTo(g, n - 1, t, p, dist, x)|
  {
    ScanCount(g, n - 1, n, t, p, dist, x);
    AllPairsUpToCountStep(g, n, t, p, dist, x);
    PairsUpToSize(g, n, t, p, dist, x);
  }

  lemma NoPairsUpToZero(g: seq<Signal>, t: int, p: Params, dist: (Pos, Pos) -> real, x: Interaction)
    ensures PairsUpTo(g, 0, t, p, dist, x) == {}
  {
  }

  lemma AllPairsUpToCountStep(g: seq<Signal>, n: int, t: int, p: Params, dist: (Pos, Pos) -> real, x: Interaction)
    requires 0 < n <= |g|
    ensures multiset(AllPairsUpTo(g, n, t, p, dist))[x]
         == multiset(AllPairsUpTo(g, n - 1, t, p, dist))[x] + multiset(ScanFrom(g, n - 1, n, t, p, dist))[x]
  {
    var before := AllPairsUpTo(g, n - 1, t, p, dist);
    var row := ScanFrom(g, n - 1, n, t, p, dist);
    assert AllPairsUpTo(g, n, t, p, dist) == before + row;
    assert multiset(before + row) == multiset(before) + multiset(row);
  }

  lemma PairsUpToSize(g: seq<Signal>, n: int, t: int, p: Params, dist: (Pos, Pos) -> real, x: Interaction)
    requires 0 < n <= |g|
    ensures |PairsUpTo(g, n, t, p, dist, x)| == |PairsUpTo(g, n - 1, t, p, dist, x)| + |RowPairs(g, n - 1, n, t, p, dist, x)|
  {
    PairsUpToSplit(g, n, t, p, dist, x);
  }

  /** The pairs with `i < n` are those with `i < n - 1` and, apart from them, those with `i == n - 1`. */
  lemma PairsUpToSplit(g: seq<Signal>, n: int, t: int, p: Params, dist: (Pos, Pos) -> real, x: Interaction)
    requires 0 < n <= |g|
    ensures PairsUpTo(g, n, t, p, dist, x) == PairsUpTo(g, n - 1, t, p, dist, x) + RowPairs(g, n - 1, n, t, p, dist, x)
    ensures PairsUpTo(g, n - 1, t, p, dist, x) * RowPairs(g, n - 1, n, t, p, dist, x) == {}
  {
    var before := PairsUpTo(g, n - 1, t, p, dist, x);
    var row := RowPairs(g, n - 1, n, t, p, dist, x);
    forall q | q in PairsUpTo(g, n, t, p, dist, x) ensures q in before + row {
      if q.0 == n - 1 {
        assert q in row;
      }
    }
    forall q | q in before ensures q !in row {
    }
  }

  /** Interaction `x` occurs in a bucket's output once for each pair of rows `i < j` that meets as `x`. */
  lemma GroupMeetsCount(g: seq<Signal>, t: int, p: Params, dist: (Pos, Pos) -> real, x: Interaction)
    ensures multiset(GroupMeets(g, t, p, dist))[x] == |MeetPairs(g, t, p, dist, x)|
  {
    GroupMeetsAllPairs(g, t, p, dist);
    AllPairsUpToCount(g, |g|, t, p, dist, x);
    assert PairsUpTo(g, |g|, t, p, dist, x) == MeetPairs(g, t, p, dist, x);
  }

  lemma {:induction false} MeetsOverCount(rows: seq<Signal>, bs: seq<int>, p: Params, dist: (Pos, Pos) -> real,
                                          x: Interaction)
    requires StrictlySorted(bs, IntLess)
    ensures multiset(MeetsOver(rows, bs, p, dist))[x]
         == if x.utc in bs then |MeetPairs(InBucket(rows, x.utc), x.utc, p, dist, x)| else 0
  {
    if bs != [] {
      var last := |bs| - 1;
      var b := bs[last];
      var front := bs[..last];
      var here := GroupMeets(InBucket(rows, b), b, p, dist);
      MeetsOverCount(rows, front, p, dist, x);
      GroupMeetsCount(InBucket(rows, b), b, p, dist, x);
      GroupMeetsAtBucketTime(InBucket(rows, b), b, p, dist);
      assert MeetsOver(rows, bs, p, dist) == MeetsOver(rows, front, p, dist) + here;
      assert bs == front + [b];
      if x.utc == b {
        assert x.utc !in front;
      } else {
        assert x !in here;
      }
    }
  }

  /**
   * Interaction `x` occurs in the whole output once for each pair of rows
   * `i < j` of its own bucket that meets as `x`, and not at all when its
   * time is not a bucket holding rows.
   */
  lemma InteractionsCount(rows: seq<Signal>, p: Params, dist: (Pos, Pos) -> real, x: Interaction)
    ensures multiset(Interactions(rows, p, dist))[x]
         == if x.utc in Buckets(rows) then |MeetPairs(InBucket(rows, x.utc), x.utc, p, dist, x)| else 0
  {
    MeetsOverCount(rows, Buckets(rows), p, dist, x);
  }
}
