/**
 * Stage 2 of the detector: session aggregation and classification.
 *
 * Interactions are grouped by vessel pair (pairs visited in ascending
 * order). A pair's interactions, in time order, are split into sessions: a
 * new session starts whenever the time since the previous interaction is
 * strictly greater than `timeGapMin` minutes. A session whose mean position
 * is far from every port becomes an anomaly record; it is confirmed when it
 * lasted at least `durationMin` minutes, a candidate when it lasted at least
 * `candidateDurationMin` minutes, and dropped otherwise.
 */
module Sessions {
  import opened Ordering
  import opened Geo
  import opened Ais
  import opened Pairing

  datatype Anomaly = Anomaly(
    mmsi1: int, mmsi2: int,
    startTime: int, endTime: int,
    durationMin: real,
    lat: real, lon: real)

  function PairOf(x: Interaction): (int, int) { (x.mmsi1, x.mmsi2) }

  function PairsOf(xs: seq<Interaction>): (ks: seq<(int, int)>)
    ensures |ks| == |xs|
    ensures forall i :: 0 <= i < |xs| ==> ks[i] == PairOf(xs[i])
  {
    if xs == [] then [] else [PairOf(xs[0])] + PairsOf(xs[1..])
  }

  /** The vessel pairs that interacted, in ascending (mmsi1, mmsi2) order. */
  function PairKeys(xs: seq<Interaction>): (ks: seq<(int, int)>)
    ensures StrictlySorted(ks, PairLess)
    ensures forall k :: k in ks <==> k in PairsOf(xs)
  {
    PairLessIsStrictTotal();
    SortedDistinct(PairsOf(xs), PairLess)
  }

  /** The interactions of pair `k`, in their original order, each as often as it occurs. */
  function OfPair(xs: seq<Interaction>, k: (int, int)): (ys: seq<Interaction>)
    ensures forall y :: y in ys <==> y in xs && PairOf(y) == k
    ensures forall y :: multiset(ys)[y] == if PairOf(y) == k then multiset(xs)[y] else 0
  {
    if xs == [] then []
    else
      assert xs == [xs[0]] + xs[1..];
      (if PairOf(xs[0]) == k then [xs[0]] else []) + OfPair(xs[1..], k)
  }

  lemma TimeOrderedTail(xs: seq<Interaction>)
    requires xs != [] && TimeOrdered(xs)
    ensures TimeOrdered(xs[1..])
  {
    forall a, b | 0 <= a < b < |xs[1..]| ensures xs[1..][a].utc <= xs[1..][b].utc {
      assert xs[1..][a] == xs[a + 1] && xs[1..][b] == xs[b + 1];
    }
  }

  lemma TimeOrderedCons(x: Interaction, rest: seq<Interaction>)
    requires TimeOrdered(rest) && forall y :: y in rest ==> x.utc <= y.utc
    ensures TimeOrdered([x] + rest)
  {
    var ys := [x] + rest;
    forall a, b | 0 <= a < b < |ys| ensures ys[a].utc <= ys[b].utc {
      assert ys[b] == rest[b - 1];
      if a > 0 {
        assert ys[a] == rest[a - 1];
      }
    }
  }

  /**
   * The interactions of one pair are already in time order when all
   * interactions are, so sorting them by time changes nothing but the
   * order of interactions with equal times.
   */
  lemma {:induction false} OfPairTimeOrdered(xs: seq<Interaction>, k: (int, int))
    requires TimeOrdered(xs)
    ensures TimeOrdered(OfPair(xs, k))
  {
    if xs != [] {
      var rest := OfPair(xs[1..], k);
      TimeOrderedTail(xs);
      OfPairTimeOrdered(xs[1..], k);
      if PairOf(xs[0]) == k {
        forall y | y in rest ensures xs[0].utc <= y.utc {
          var m :| 0 <= m < |xs[1..]| && xs[1..][m] == y;
          assert xs[m + 1] == y;
        }
        TimeOrderedCons(xs[0], rest);
      }
    }
  }

  /** Whether `b`, following `a`, opens a new session. */
  function StartsNew(a: Interaction, b: Interaction, timeGapMin: real): bool {
    (b.utc - a.utc) as real > timeGapMin * SecondsPerMinute as real
  }

  function Last<T>(s: seq<T>): T
    requires s != []
  {
    s[|s| - 1]
  }

  /** Splits a pair's time-ordered interactions into sessions at every gap. */
  function Split(xs: seq<Interaction>, timeGapMin: real): (ss: seq<seq<Interaction>>)
    ensures xs == [] <==> ss == []
    ensures xs != [] ==> ss[0] != [] && ss[0][0] == xs[0]
    ensures forall i :: 0 <= i < |ss| ==> ss[i] != []
  {
    if |xs| <= 1 then (if xs == [] then [] else [xs])
    else
      var rest := Split(xs[1..], timeGapMin);
      if StartsNew(xs[0], xs[1], timeGapMin) then [[xs[0]]] + rest
      else [[xs[0]] + rest[0]] + rest[1..]
  }

  function Flatten<T>(ss: seq<seq<T>>): seq<T>
  {
    if ss == [] then [] else ss[0] + Flatten(ss[1..])
  }

  /** The sessions, put back together in order, are the pair's interactions. */
  lemma {:induction false} SplitPartition(xs: seq<Interaction>, timeGapMin: real)
    ensures Flatten(Split(xs, timeGapMin)) == xs
  {
    if |xs| > 1 {
      var rest := Split(xs[1..], timeGapMin);
      SplitPartition(xs[1..], timeGapMin);
      if !StartsNew(xs[0], xs[1], timeGapMin) {
        assert Flatten(rest) == rest[0] + Flatten(rest[1..]);
      }
    }
  }

  /** Inside a session no step exceeds the gap: a gap equal to `timeGapMin` stays in one session. */
  ghost predicate GapsOnlyBetween(ss: seq<seq<Interaction>>, timeGapMin: real) {
    && (forall i, k :: 0 <= i < |ss| && 0 <= k < |ss[i]| - 1 ==> !StartsNew(ss[i][k], ss[i][k + 1], timeGapMin))
    && (forall i :: 0 <= i < |ss| - 1 && ss[i] != [] && ss[i + 1] != [] ==>
          StartsNew(Last(ss[i]), ss[i + 1][0], timeGapMin))
  }

  /**
   * Sessions break exactly at the gaps: inside a session no step exceeds
   * `timeGapMin` minutes (a step of exactly that length stays inside), and
   * between consecutive sessions the step does.
   */
  lemma {:induction false} SplitAtGaps(xs: seq<Interaction>, timeGapMin: real)
    ensures GapsOnlyBetween(Split(xs, timeGapMin), timeGapMin)
  {
    if |xs| > 1 {
      var rest := Split(xs[1..], timeGapMin);
      SplitAtGaps(xs[1..], timeGapMin);
      var ss := Split(xs, timeGapMin);
      forall i, k | 0 <= i < |ss| && 0 <= k < |ss[i]| - 1
        ensures !StartsNew(ss[i][k], ss[i][k + 1], timeGapMin)
      {
        if StartsNew(xs[0], xs[1], timeGapMin) {
          assert ss[i] == rest[i - 1];
        } else if i == 0 {
          if k > 0 {
            assert ss[0][k] == rest[0][k - 1] && ss[0][k + 1] == rest[0][k];
          } else {
            assert ss[0][0] == xs[0] && ss[0][1] == rest[0][0] == xs[1];
          }
        } else {
          assert ss[i] == rest[i];
        }
      }
      forall i | 0 <= i < |ss| - 1 && ss[i] != [] && ss[i + 1] != []
        ensures StartsNew(Last(ss[i]), ss[i + 1][0], timeGapMin)
      {
        if StartsNew(xs[0], xs[1], timeGapMin) {
          if i > 0 {
            assert ss[i] == rest[i - 1] && ss[i + 1] == rest[i];
          } else {
            assert Last(ss[0]) == xs[0] && ss[1][0] == rest[0][0] == xs[1];
          }
        } else {
          assert Last(ss[i]) == Last(rest[i]);
          assert ss[i + 1] == rest[i + 1];
        }
      }
    }
  }

  /** `ss` with `y` added at the end: as a new session, or appended to the last one. */
  function AddLast(ss: seq<seq<Interaction>>, y: Interaction, opensNew: bool): seq<seq<Interaction>>
    requires ss != []
  {
    if opensNew then ss + [[y]] else ss[..|ss| - 1] + [Last(ss) + [y]]
  }

  /** `ss` with `x` added at the front: as a new session, or prepended to the first one. */
  function AddFirst(x: Interaction, ss: seq<seq<Interaction>>, opensNew: bool): seq<seq<Interaction>>
    requires ss != []
  {
    if opensNew then [[x]] + ss else [[x] + ss[0]] + ss[1..]
  }

  /** Adding at the front and adding at the end commute. */
  lemma AddFirstLast(x: Interaction, ss: seq<seq<Interaction>>, y: Interaction, front: bool, back: bool)
    requires ss != []
    ensures AddFirst(x, AddLast(ss, y, back), front) == AddLast(AddFirst(x, ss, front), y, back)
  {
    var l := AddLast(ss, y, back);
    var f := AddFirst(x, ss, front);
    if !front && !back {
      if |ss| == 1 {
        assert l == [ss[0] + [y]];
        assert f == [[x] + ss[0]];
        assert [x] + (ss[0] + [y]) == ([x] + ss[0]) + [y];
      } else {
        assert l[0] == ss[0] && l[1..] == ss[1..|ss| - 1] + [Last(ss) + [y]];
        assert f[..|f| - 1] == [[x] + ss[0]] + ss[1..|ss| - 1];
        assert Last(f) == Last(ss);
      }
    } else if !front {
      assert l[0] == ss[0] && l[1..] == ss[1..] + [[y]];
    } else if !back {
      assert f[..|f| - 1] == [[x]] + ss[..|ss| - 1];
    }
  }

  lemma SplitFront(xs: seq<Interaction>, timeGapMin: real)
    requires |xs| >= 2
    ensures Split(xs, timeGapMin) == AddFirst(xs[0], Split(xs[1..], timeGapMin), StartsNew(xs[0], xs[1], timeGapMin))
  {
  }

  /**
   * Splitting grows at the end: one more interaction either opens a new
   * session (its step exceeds the gap) or extends the last one.
   */
  lemma {:induction false} SplitSnoc(xs: seq<Interaction>, y: Interaction, timeGapMin: real)
    requires xs != []
    ensures Split(xs + [y], timeGapMin) == AddLast(Split(xs, timeGapMin), y, StartsNew(Last(xs), y, timeGapMin))
  {
    var xy := xs + [y];
    if |xs| == 1 {
      assert xy == [xs[0], y] && xy[1..] == [y];
      assert Split([y], timeGapMin) == [[y]];
      assert Split(xs, timeGapMin) == [xs];
      assert Last(xs) == xs[0] && xs == [xs[0]];
      SplitFront(xy, timeGapMin);
      if !StartsNew(xs[0], y, timeGapMin) {
        assert AddLast([xs], y, false) == [xs + [y]];
        assert xs + [y] == [xs[0]] + [y];
      }
    } else {
      var tail := xs[1..];
      assert xy[1..] == tail + [y];
      assert Last(tail) == Last(xs);
      SplitSnoc(tail, y, timeGapMin);
      SplitFront(xs, timeGapMin);
      SplitFront(xy, timeGapMin);
      AddFirstLast(xs[0], Split(tail, timeGapMin), y, StartsNew(xs[0], xs[1], timeGapMin),
                   StartsNew(Last(xs), y, timeGapMin));
    }
  }

  /**
   * The gap scan over one pair's interactions in time order: a row whose
   * step from the previous row exceeds the gap opens a new session, any
   * other row joins the current one.
   */
  method SplitSessions(group: seq<Interaction>, timeGapMin: real) returns (sessions: seq<seq<Interaction>>)
    ensures sessions == Split(group, timeGapMin)
  {
    sessions := [];
    var k := 0;
    while k < |group|
      invariant 0 <= k <= |group|
      invariant sessions == Split(group[..k], timeGapMin)
    {
      assert group[..k + 1] == group[..k] + [group[k]];
      if k > 0 {
        SplitSnoc(group[..k], group[k], timeGapMin);
        assert Last(group[..k]) == group[k - 1];
      } else {
        assert group[..k + 1] == [group[0]];
      }
      if k == 0 || StartsNew(group[k - 1], group[k], timeGapMin) {
        sessions := sessions + [[group[k]]];
      } else {
        sessions := sessions[..|sessions| - 1] + [sessions[|sessions| - 1] + [group[k]]];
      }
      k := k + 1;
    }
    assert group[..k] == group;
  }

  lemma {:induction false} FlattenMember<T>(ss: seq<seq<T>>, i: int, x: T)
    requires 0 <= i < |ss| && x in ss[i]
    ensures x in Flatten(ss)
  {
    if i > 0 {
      FlattenMember(ss[1..], i - 1, x);
    }
  }

  // ---------------------------------------------------------------------
  // Summaries of one session
  // ---------------------------------------------------------------------

  function SumLat(s: seq<Interaction>): real {
    if s == [] then 0.0 else s[0].lat + SumLat(s[1..])
  }

  function SumLon(s: seq<Interaction>): real {
    if s == [] then 0.0 else s[0].lon + SumLon(s[1..])
  }

  function MinTime(s: seq<Interaction>): (t: int)
    requires s != []
    ensures forall x :: x in s ==> t <= x.utc
    ensures exists x :: x in s && t == x.utc
  {
    if |s| == 1 then s[0].utc
    else var m := MinTime(s[1..]); if s[0].utc <= m then s[0].utc else m
  }

  function MaxTime(s: seq<Interaction>): (t: int)
    requires s != []
    ensures forall x :: x in s ==> x.utc <= t
    ensures exists x :: x in s && t == x.utc
  {
    if |s| == 1 then s[0].utc
    else var m := MaxTime(s[1..]); if s[0].utc >= m then s[0].utc else m
  }

  /**
   * The anomaly record of session `s` of pair `k`: the first and last
   * interaction times, the minutes between them and the mean position.
   */
  function Summarize(k: (int, int), s: seq<Interaction>): (r: Anomaly)
    requires s != []
    ensures r.mmsi1 == k.0 && r.mmsi2 == k.1
    ensures forall x :: x in s ==> r.startTime <= x.utc <= r.endTime
    ensures (exists x :: x in s && x.utc == r.startTime) && (exists x :: x in s && x.utc == r.endTime)
    ensures r.durationMin * 60.0 == (r.endTime - r.startTime) as real
    ensures r.lat * |s| as real == SumLat(s) && r.lon * |s| as real == SumLon(s)
  {
    Anomaly(
      k.0, k.1,
      MinTime(s), MaxTime(s),
      (MaxTime(s) - MinTime(s)) as real / SecondsPerMinute as real,
      SumLat(s) / |s| as real,
      SumLon(s) / |s| as real)
  }

  lemma {:induction false} SumLatBounds(s: seq<Interaction>, lo: real, hi: real)
    requires forall i :: 0 <= i < |s| ==> lo <= s[i].lat <= hi
    ensures |s| as real * lo <= SumLat(s) <= |s| as real * hi
  {
    if s != [] {
      SumLatBounds(s[1..], lo, hi);
    }
  }

  lemma {:induction false} SumLonBounds(s: seq<Interaction>, lo: real, hi: real)
    requires forall i :: 0 <= i < |s| ==> lo <= s[i].lon <= hi
    ensures |s| as real * lo <= SumLon(s) <= |s| as real * hi
  {
    if s != [] {
      SumLonBounds(s[1..], lo, hi);
    }
  }

  /**
   * The mean position lies in every latitude/longitude box that holds all
   * the session's interactions.
   */
  lemma SummaryWithinBox(k: (int, int), s: seq<Interaction>, latLo: real, latHi: real, lonLo: real, lonHi: real)
    requires s != []
    requires forall x :: x in s ==> latLo <= x.lat <= latHi && lonLo <= x.lon <= lonHi
    ensures var r := Summarize(k, s); latLo <= r.lat <= latHi && lonLo <= r.lon <= lonHi
  {
    forall i | 0 <= i < |s| ensures latLo <= s[i].lat <= latHi && lonLo <= s[i].lon <= lonHi {
      assert s[i] in s;
    }
    MeanLatInBox(s, Summarize(k, s).lat, latLo, latHi);
    MeanLonInBox(s, Summarize(k, s).lon, lonLo, lonHi);
  }

  lemma MeanLatInBox(s: seq<Interaction>, lat: real, lo: real, hi: real)
    requires s != [] && forall i :: 0 <= i < |s| ==> lo <= s[i].lat <= hi
    requires lat == SumLat(s) / |s| as real
    ensures lo <= lat <= hi
  {
    SumLatBounds(s, lo, hi);
    MeanWithin(lat, SumLat(s), |s| as real, lo, hi);
  }

  lemma MeanLonInBox(s: seq<Interaction>, lon: real, lo: real, hi: real)
    requires s != [] && forall i :: 0 <= i < |s| ==> lo <= s[i].lon <= hi
    requires lon == SumLon(s) / |s| as real
    ensures lo <= lon <= hi
  {
    SumLonBounds(s, lo, hi);
    MeanWithin(lon, SumLon(s), |s| as real, lo, hi);
  }

  lemma MeanWithin(mean: real, sum: real, n: real, lo: real, hi: real)
    requires n > 0.0 && mean == sum / n && n * lo <= sum <= n * hi
    ensures lo <= mean <= hi
  {
  }

  datatype Verdict = Confirmed(anomaly: Anomaly) | Candidate(anomaly: Anomaly) | Dropped

  /** Port exclusion first, then the two duration tiers. */
  function Classify(k: (int, int), s: seq<Interaction>, p: Params, ports: seq<Port>,
                    dist: (Pos, Pos) -> real): Verdict
    requires s != []
  {
    var a := Summarize(k, s);
    if !IsFarFromPorts(Pos(a.lat, a.lon), ports, p.portDistKm, dist) then Dropped
    else if a.durationMin >= p.durationMin then Confirmed(a)
    else if a.durationMin >= p.candidateDurationMin then Candidate(a)
    else Dropped
  }

  /**
   * A session is kept only when its mean position is far from every port;
   * it is confirmed iff it lasted at least `durationMin`, a candidate iff
   * its duration lies in [candidateDurationMin, durationMin), and a kept
   * record spans the session with `startTime <= endTime`.
   */
  lemma ClassifyTiers(k: (int, int), s: seq<Interaction>, p: Params, ports: seq<Port>,
                      dist: (Pos, Pos) -> real)
    requires s != []
    ensures var a := Summarize(k, s);
      var far := IsFarFromPorts(Pos(a.lat, a.lon), ports, p.portDistKm, dist);
      var v := Classify(k, s, p, ports, dist);
      && (v.Confirmed? <==> far && a.durationMin >= p.durationMin)
      && (v.Candidate? <==> far && p.candidateDurationMin <= a.durationMin < p.durationMin)
      && (!v.Dropped? ==> v.anomaly == a)
      && a.startTime <= a.endTime
      && a.durationMin >= 0.0
  {
  }

  // ---------------------------------------------------------------------
  // The aggregation loop
  // ---------------------------------------------------------------------

  /** One verdict per session, in session order. */
  function SessionVerdicts(k: (int, int), ss: seq<seq<Interaction>>, p: Params, ports: seq<Port>,
                           dist: (Pos, Pos) -> real): seq<Verdict>
    requires forall i :: 0 <= i < |ss| ==> ss[i] != []
  {
    if ss == [] then []
    else SessionVerdicts(k, ss[..|ss| - 1], p, ports, dist) + [Classify(k, ss[|ss| - 1], p, ports, dist)]
  }

  function PairSessions(xs: seq<Interaction>, k: (int, int), p: Params): seq<seq<Interaction>>
  {
    Split(OfPair(xs, k), p.timeGapMin)
  }

  function VerdictsOver(xs: seq<Interaction>, ks: seq<(int, int)>, p: Params, ports: seq<Port>,
                        dist: (Pos, Pos) -> real): seq<Verdict>
  {
    if ks == [] then []
    else
      var k := ks[|ks| - 1];
      VerdictsOver(xs, ks[..|ks| - 1], p, ports, dist) + SessionVerdicts(k, PairSessions(xs, k, p), p, ports, dist)
  }

  /** The verdict of every session of every pair, pairs in key order, sessions in time order. */
  function Verdicts(xs: seq<Interaction>, p: Params, ports: seq<Port>, dist: (Pos, Pos) -> real): seq<Verdict>
  {
    VerdictsOver(xs, PairKeys(xs), p, ports, dist)
  }

  function ConfirmedOf(vs: seq<Verdict>): seq<Anomaly>
  {
    if vs == [] then []
    else
      var v := vs[|vs| - 1];
      ConfirmedOf(vs[..|vs| - 1]) + (if v.Confirmed? then [v.anomaly] else [])
  }

  function CandidatesOf(vs: seq<Verdict>): seq<Anomaly>
  {
    if vs == [] then []
    else
      var v := vs[|vs| - 1];
      CandidatesOf(vs[..|vs| - 1]) + (if v.Candidate? then [v.anomaly] else [])
  }

  /**
   * The session loop nest: pair by pair, session by session, each kept
   * record appended to the confirmed or the candidate list.
   */
  method AggregateSessions(xs: seq<Interaction>, p: Params, ports: seq<Port>, dist: (Pos, Pos) -> real)
    returns (confirmed: seq<Anomaly>, candidates: seq<Anomaly>)
    ensures confirmed == ConfirmedOf(Verdicts(xs, p, ports, dist))
    ensures candidates == CandidatesOf(Verdicts(xs, p, ports, dist))
  {
    confirmed, candidates := [], [];
    var keys := PairKeys(xs);
    var n := 0;
    while n < |keys|
      invariant 0 <= n <= |keys|
      invariant confirmed == ConfirmedOf(VerdictsOver(xs, keys[..n], p, ports, dist))
      invariant candidates == CandidatesOf(VerdictsOver(xs, keys[..n], p, ports, dist))
    {
      var key := keys[n];
      var sessions := SplitSessions(OfPair(xs, key), p.timeGapMin);
      var more, moreCandidates := ClassifySessions(key, sessions, p, ports, dist);
      AggregateStep(xs, keys, n, p, ports, dist);
      confirmed := confirmed + more;
      candidates := candidates + moreCandidates;
      n := n + 1;
    }
    assert keys[..n] == keys;
  }

  lemma AggregateStep(xs: seq<Interaction>, keys: seq<(int, int)>, n: int, p: Params, ports: seq<Port>,
                      dist: (Pos, Pos) -> real)
    requires 0 <= n < |keys|
    ensures var before := VerdictsOver(xs, keys[..n], p, ports, dist);
      var added := SessionVerdicts(keys[n], PairSessions(xs, keys[n], p), p, ports, dist);
      && ConfirmedOf(VerdictsOver(xs, keys[..n + 1], p, ports, dist)) == ConfirmedOf(before) + ConfirmedOf(added)
      && CandidatesOf(VerdictsOver(xs, keys[..n + 1], p, ports, dist)) == CandidatesOf(before) + CandidatesOf(added)
  {
    var before := VerdictsOver(xs, keys[..n], p, ports, dist);
    var added := SessionVerdicts(keys[n], PairSessions(xs, keys[n], p), p, ports, dist);
    assert keys[..n + 1][..n] == keys[..n];
    assert VerdictsOver(xs, keys[..n + 1], p, ports, dist) == before + added;
    ConfirmedOfAppend(before, added);
    CandidatesOfAppend(before, added);
  }

  /** The sessions of one pair, in order. */
  method ClassifySessions(key: (int, int), sessions: seq<seq<Interaction>>, p: Params, ports: seq<Port>,
                          dist: (Pos, Pos) -> real)
    returns (confirmed: seq<Anomaly>, candidates: seq<Anomaly>)
    requires forall i :: 0 <= i < |sessions| ==> sessions[i] != []
    ensures confirmed == ConfirmedOf(SessionVerdicts(key, sessions, p, ports, dist))
    ensures candidates == CandidatesOf(SessionVerdicts(key, sessions, p, ports, dist))
  {
    confirmed, candidates := [], [];
    var m := 0;
    while m < |sessions|
      invariant 0 <= m <= |sessions|
      invariant confirmed == ConfirmedOf(SessionVerdicts(key, sessions[..m], p, ports, dist))
      invariant candidates == CandidatesOf(SessionVerdicts(key, sessions[..m], p, ports, dist))
    {
      var session := sessions[m];
      SessionVerdictsStep(key, sessions, m, p, ports, dist);
      var latMean := SumLat(session) / |session| as real;
      var lonMean := SumLon(session) / |session| as real;
      if IsFarFromPorts(Pos(latMean, lonMean), ports, p.portDistKm, dist) {
        var duration := (MaxTime(session) - MinTime(session)) as real / SecondsPerMinute as real;
        var record := Anomaly(key.0, key.1, MinTime(session), MaxTime(session), duration, latMean, lonMean);
        assert record == Summarize(key, session);
        if duration >= p.durationMin {
          confirmed := confirmed + [record];
        } else if duration >= p.candidateDurationMin {
          candidates := candidates + [record];
        }
      }
      m := m + 1;
    }
    assert sessions[..m] == sessions;
  }

  lemma SessionVerdictsStep(key: (int, int), sessions: seq<seq<Interaction>>, m: int, p: Params,
                            ports: seq<Port>, dist: (Pos, Pos) -> real)
    requires forall i :: 0 <= i < |sessions| ==> sessions[i] != []
    requires 0 <= m < |sessions|
    ensures var vs := SessionVerdicts(key, sessions[..m], p, ports, dist);
      var v := Classify(key, sessions[m], p, ports, dist);
      && ConfirmedOf(SessionVerdicts(key, sessions[..m + 1], p, ports, dist))
         == ConfirmedOf(vs) + (if v.Confirmed? then [v.anomaly] else [])
      && CandidatesOf(SessionVerdicts(key, sessions[..m + 1], p, ports, dist))
         == CandidatesOf(vs) + (if v.Candidate? then [v.anomaly] else [])
  {
    var vs := SessionVerdicts(key, sessions[..m], p, ports, dist);
    var v := Classify(key, sessions[m], p, ports, dist);
    assert sessions[..m + 1][..m] == sessions[..m];
    assert SessionVerdicts(key, sessions[..m + 1], p, ports, dist) == vs + [v];
    assert (vs + [v])[..|vs|] == vs;
  }

  lemma {:induction false} ConfirmedOfAppend(a: seq<Verdict>, b: seq<Verdict>)
    ensures ConfirmedOf(a + b) == ConfirmedOf(a) + ConfirmedOf(b)
  {
    if b == [] {
      assert a + b == a;
    } else {
      var last := |b| - 1;
      ConfirmedOfAppend(a, b[..last]);
      assert (a + b)[..|a + b| - 1] == a + b[..last];
      assert (a + b)[|a + b| - 1] == b[last];
    }
  }

  lemma {:induction false} CandidatesOfAppend(a: seq<Verdict>, b: seq<Verdict>)
    ensures CandidatesOf(a + b) == CandidatesOf(a) + CandidatesOf(b)
  {
    if b == [] {
      assert a + b == a;
    } else {
      var last := |b| - 1;
      CandidatesOfAppend(a, b[..last]);
      assert (a + b)[..|a + b| - 1] == a + b[..last];
      assert (a + b)[|a + b| - 1] == b[last];
    }
  }

  // ---------------------------------------------------------------------
  // What ends up in the two lists
  // ---------------------------------------------------------------------

  lemma {:induction false} ConfirmedOfMembership(vs: seq<Verdict>, a: Anomaly)
    ensures a in ConfirmedOf(vs) <==> Confirmed(a) in vs
  {
    if vs != [] {
      var last := |vs| - 1;
      ConfirmedOfMembership(vs[..last], a);
      assert vs == vs[..last] + [vs[last]];
    }
  }

  lemma {:induction false} CandidatesOfMembership(vs: seq<Verdict>, a: Anomaly)
    ensures a in CandidatesOf(vs) <==> Candidate(a) in vs
  {
    if vs != [] {
      var last := |vs| - 1;
      CandidatesOfMembership(vs[..last], a);
      assert vs == vs[..last] + [vs[last]];
    }
  }

  /** `v` is the verdict on session `j` of `ss`. */
  ghost predicate ClassifiedAt(k: (int, int), ss: seq<seq<Interaction>>, j: int, p: Params, ports: seq<Port>,
                               dist: (Pos, Pos) -> real, v: Verdict)
  {
    0 <= j < |ss| && ss[j] != [] && v == Classify(k, ss[j], p, ports, dist)
  }

  /** `v` is the verdict on one session of pair `k`. */
  ghost predicate IsVerdictOf(xs: seq<Interaction>, k: (int, int), p: Params, ports: seq<Port>,
                              dist: (Pos, Pos) -> real, v: Verdict)
  {
    exists j :: ClassifiedAt(k, PairSessions(xs, k, p), j, p, ports, dist, v)
  }

  lemma {:induction false} SessionVerdictsAt(k: (int, int), ss: seq<seq<Interaction>>, j: int, p: Params,
                                             ports: seq<Port>, dist: (Pos, Pos) -> real)
    requires forall i :: 0 <= i < |ss| ==> ss[i] != []
    requires 0 <= j < |ss|
    ensures |SessionVerdicts(k, ss, p, ports, dist)| == |ss|
    ensures SessionVerdicts(k, ss, p, ports, dist)[j] == Classify(k, ss[j], p, ports, dist)
  {
    var init := ss[..|ss| - 1];
    SessionVerdictsLength(k, init, p, ports, dist);
    if j < |ss| - 1 {
      SessionVerdictsAt(k, init, j, p, ports, dist);
      assert init[j] == ss[j];
    }
  }

  lemma {:induction false} SessionVerdictsLength(k: (int, int), ss: seq<seq<Interaction>>, p: Params,
                                                 ports: seq<Port>, dist: (Pos, Pos) -> real)
    requires forall i :: 0 <= i < |ss| ==> ss[i] != []
    ensures |SessionVerdicts(k, ss, p, ports, dist)| == |ss|
  {
    if ss != [] {
      SessionVerdictsLength(k, ss[..|ss| - 1], p, ports, dist);
    }
  }

  lemma SessionVerdictsMembership(k: (int, int), ss: seq<seq<Interaction>>, p: Params,
                                  ports: seq<Port>, dist: (Pos, Pos) -> real, v: Verdict)
    requires forall i :: 0 <= i < |ss| ==> ss[i] != []
    ensures v in SessionVerdicts(k, ss, p, ports, dist) <==> exists j :: ClassifiedAt(k, ss, j, p, ports, dist, v)
  {
    var vs := SessionVerdicts(k, ss, p, ports, dist);
    if v in vs {
      var j :| 0 <= j < |vs| && vs[j] == v;
      SessionVerdictsLength(k, ss, p, ports, dist);
      SessionVerdictsAt(k, ss, j, p, ports, dist);
      assert ClassifiedAt(k, ss, j, p, ports, dist, v);
    }
    if exists j :: ClassifiedAt(k, ss, j, p, ports, dist, v) {
      var j :| ClassifiedAt(k, ss, j, p, ports, dist, v);
      SessionVerdictsAt(k, ss, j, p, ports, dist);
      assert vs[j] == v;
    }
  }

  ghost predicate VerdictOfPair(xs: seq<Interaction>, k: (int, int), p: Params, ports: seq<Port>,
                                dist: (Pos, Pos) -> real, v: Verdict)
  {
    v in SessionVerdicts(k, PairSessions(xs, k, p), p, ports, dist)
  }

  lemma {:induction false} VerdictsOverMembership(xs: seq<Interaction>, ks: seq<(int, int)>, p: Params,
                                                  ports: seq<Port>, dist: (Pos, Pos) -> real, v: Verdict)
    ensures v in VerdictsOver(xs, ks, p, ports, dist) <==> exists k :: k in ks && VerdictOfPair(xs, k, p, ports, dist, v)
  {
    if ks != [] {
      var last := |ks| - 1;
      var k := ks[last];
      var init := ks[..last];
      var before := VerdictsOver(xs, init, p, ports, dist);
      var here := SessionVerdicts(k, PairSessions(xs, k, p), p, ports, dist);
      VerdictsOverMembership(xs, init, p, ports, dist, v);
      assert VerdictsOver(xs, ks, p, ports, dist) == before + here;
      if v in before + here {
        if v in before {
          var k' :| k' in init && VerdictOfPair(xs, k', p, ports, dist, v);
          assert k' in ks;
        } else {
          assert VerdictOfPair(xs, k, p, ports, dist, v);
        }
        assert exists k' :: k' in ks && VerdictOfPair(xs, k', p, ports, dist, v);
      } else {
        forall k' | k' in ks ensures !VerdictOfPair(xs, k', p, ports, dist, v) {
          var n :| 0 <= n < |ks| && ks[n] == k';
          if n < last {
            assert init[n] == k';
          }
        }
      }
    }
  }

  /**
   * A verdict is produced exactly for the sessions of the pairs that
   * interacted: one per session, nothing else.
   */
  lemma VerdictsMembership(xs: seq<Interaction>, p: Params, ports: seq<Port>, dist: (Pos, Pos) -> real,
                           v: Verdict)
    ensures v in Verdicts(xs, p, ports, dist) <==>
      exists k :: k in PairKeys(xs) && IsVerdictOf(xs, k, p, ports, dist, v)
  {
    VerdictsOverMembership(xs, PairKeys(xs), p, ports, dist, v);
    forall k | k in PairKeys(xs) ensures VerdictOfPair(xs, k, p, ports, dist, v) <==> IsVerdictOf(xs, k, p, ports, dist, v) {
      SessionVerdictsMembership(k, PairSessions(xs, k, p), p, ports, dist, v);
    }
  }
}
