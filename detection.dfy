/**
 * The whole detector: downsample, pair within 5-minute buckets, then
 * split each pair's interactions into sessions and classify them.
 *
 * `Detect` is the specification of the batch; `DetectAnomalies` is the
 * procedure, proved equal to it. The lemmas below state what the two
 * returned lists hold.
 */
module Detection {
  import opened Geo
  import opened Ais
  import opened Downsampling
  import opened Pairing
  import opened Sessions

  /** The two tables the detector returns. */
  datatype Detected = Detected(confirmed: seq<Anomaly>, candidates: seq<Anomaly>)

  function Detect(sigs: seq<Signal>, p: Params, ports: seq<Port>, dist: (Pos, Pos) -> real): Detected
  {
    var xs := Interactions(Downsample(sigs), p, dist);
    if xs == [] then Detected([], [])
    else
      var vs := Verdicts(xs, p, ports, dist);
      Detected(ConfirmedOf(vs), CandidatesOf(vs))
  }

  method DetectAnomalies(sigs: seq<Signal>, p: Params, ports: seq<Port>, dist: (Pos, Pos) -> real)
    returns (confirmed: seq<Anomaly>, candidates: seq<Anomaly>)
    ensures Detected(confirmed, candidates) == Detect(sigs, p, ports, dist)
  {
    var rows := Downsample(sigs);
    var found := FindInteractions(rows, p, dist);
    if found == [] {
      return [], [];
    }
    confirmed, candidates := AggregateSessions(found, p, ports, dist);
  }

  // ---------------------------------------------------------------------
  // Membership
  // ---------------------------------------------------------------------

  /**
   * A record is confirmed (resp. a candidate) exactly when it is the
   * verdict on one session of one interacting pair.
   */
  lemma DetectExactly(sigs: seq<Signal>, p: Params, ports: seq<Port>, dist: (Pos, Pos) -> real, a: Anomaly)
    ensures var xs := Interactions(Downsample(sigs), p, dist);
      var r := Detect(sigs, p, ports, dist);
      && (a in r.confirmed <==> exists k :: k in PairKeys(xs) && IsVerdictOf(xs, k, p, ports, dist, Confirmed(a)))
      && (a in r.candidates <==> exists k :: k in PairKeys(xs) && IsVerdictOf(xs, k, p, ports, dist, Candidate(a)))
  {
    var xs := Interactions(Downsample(sigs), p, dist);
    if xs == [] {
      assert PairsOf(xs) == [];
    } else {
      var vs := Verdicts(xs, p, ports, dist);
      ConfirmedOfMembership(vs, a);
      CandidatesOfMembership(vs, a);
      VerdictsMembership(xs, p, ports, dist, Confirmed(a));
      VerdictsMembership(xs, p, ports, dist, Candidate(a));
    }
  }

  // ---------------------------------------------------------------------
  // What a reported record says
  // ---------------------------------------------------------------------

  /** Every interaction in a session of pair `k` is an interaction of that pair. */
  lemma SessionMember(xs: seq<Interaction>, k: (int, int), p: Params, j: int, x: Interaction)
    requires 0 <= j < |PairSessions(xs, k, p)| && x in PairSessions(xs, k, p)[j]
    ensures x in xs && PairOf(x) == k
  {
    var ss := PairSessions(xs, k, p);
    FlattenMember(ss, j, x);
    SplitPartition(OfPair(xs, k), p.timeGapMin);
  }

  /** The shape every reported record has, whatever its tier. */
  ghost predicate WellFormed(xs: seq<Interaction>, a: Anomaly) {
    && a.mmsi1 <= a.mmsi2
    && a.startTime <= a.endTime
    && a.startTime % BucketSeconds == 0 && a.endTime % BucketSeconds == 0
    && a.durationMin == (a.endTime - a.startTime) as real / SecondsPerMinute as real
    && (exists x :: x in xs && PairOf(x) == (a.mmsi1, a.mmsi2) && x.utc == a.startTime)
    && (exists x :: x in xs && PairOf(x) == (a.mmsi1, a.mmsi2) && x.utc == a.endTime)
  }

  /**
   * A session record spans whole buckets of the pair's own interactions:
   * start and end are bucket starts at which the (ordered) pair met.
   */
  lemma RecordWellFormed(rows: seq<Signal>, p: Params, dist: (Pos, Pos) -> real, k: (int, int), j: int)
    requires var ss := PairSessions(Interactions(rows, p, dist), k, p); 0 <= j < |ss|
    ensures var xs := Interactions(rows, p, dist);
      WellFormed(xs, Summarize(k, PairSessions(xs, k, p)[j]))
  {
    var xs := Interactions(rows, p, dist);
    var s := PairSessions(xs, k, p)[j];
    var a := Summarize(k, s);
    var lo :| lo in s && lo.utc == MinTime(s);
    var hi :| hi in s && hi.utc == MaxTime(s);
    SessionMember(xs, k, p, j, lo);
    SessionMember(xs, k, p, j, hi);
    InteractionShape(rows, p, dist, lo);
    InteractionShape(rows, p, dist, hi);
    assert PairOf(lo) == (a.mmsi1, a.mmsi2);
  }

  /**
   * A confirmed record lasted at least `durationMin`, lies far from every
   * port, and is well formed.
   */
  lemma ConfirmedSound(sigs: seq<Signal>, p: Params, ports: seq<Port>, dist: (Pos, Pos) -> real, a: Anomaly)
    requires a in Detect(sigs, p, ports, dist).confirmed
    ensures a.durationMin >= p.durationMin
    ensures IsFarFromPorts(Pos(a.lat, a.lon), ports, p.portDistKm, dist)
    ensures WellFormed(Interactions(Downsample(sigs), p, dist), a)
  {
    var rows := Downsample(sigs);
    var xs := Interactions(rows, p, dist);
    DetectExactly(sigs, p, ports, dist, a);
    var k :| k in PairKeys(xs) && IsVerdictOf(xs, k, p, ports, dist, Confirmed(a));
    var ss := PairSessions(xs, k, p);
    var j :| ClassifiedAt(k, ss, j, p, ports, dist, Confirmed(a));
    ClassifyTiers(k, ss[j], p, ports, dist);
    RecordWellFormed(rows, p, dist, k, j);
  }

  /**
   * A candidate lasted at least `candidateDurationMin` but less than
   * `durationMin`, lies far from every port, and is well formed.
   */
  lemma CandidateSound(sigs: seq<Signal>, p: Params, ports: seq<Port>, dist: (Pos, Pos) -> real, a: Anomaly)
    requires a in Detect(sigs, p, ports, dist).candidates
    ensures p.candidateDurationMin <= a.durationMin < p.durationMin
    ensures IsFarFromPorts(Pos(a.lat, a.lon), ports, p.portDistKm, dist)
    ensures WellFormed(Interactions(Downsample(sigs), p, dist), a)
  {
    var rows := Downsample(sigs);
    var xs := Interactions(rows, p, dist);
    DetectExactly(sigs, p, ports, dist, a);
    var k :| k in PairKeys(xs) && IsVerdictOf(xs, k, p, ports, dist, Candidate(a));
    var ss := PairSessions(xs, k, p);
    var j :| ClassifiedAt(k, ss, j, p, ports, dist, Candidate(a));
    ClassifyTiers(k, ss[j], p, ports, dist);
    RecordWellFormed(rows, p, dist, k, j);
  }

  /** No record is both confirmed and a candidate. */
  lemma TiersDisjoint(sigs: seq<Signal>, p: Params, ports: seq<Port>, dist: (Pos, Pos) -> real, a: Anomaly)
    ensures !(a in Detect(sigs, p, ports, dist).confirmed && a in Detect(sigs, p, ports, dist).candidates)
  {
    if a in Detect(sigs, p, ports, dist).confirmed {
      ConfirmedSound(sigs, p, ports, dist, a);
      if a in Detect(sigs, p, ports, dist).candidates {
        CandidateSound(sigs, p, ports, dist, a);
      }
    }
  }

  /**
   * Completeness: every session of an interacting pair whose mean position
   * is far from the ports is reported, confirmed when it lasted at least
   * `durationMin`, as a candidate when it lasted at least
   * `candidateDurationMin` but less than `durationMin`.
   */
  lemma SessionReported(sigs: seq<Signal>, p: Params, ports: seq<Port>, dist: (Pos, Pos) -> real,
                        k: (int, int), j: int)
    requires var xs := Interactions(Downsample(sigs), p, dist);
      k in PairKeys(xs) && 0 <= j < |PairSessions(xs, k, p)|
    ensures var xs := Interactions(Downsample(sigs), p, dist);
      var a := Summarize(k, PairSessions(xs, k, p)[j]);
      var far := IsFarFromPorts(Pos(a.lat, a.lon), ports, p.portDistKm, dist);
      var r := Detect(sigs, p, ports, dist);
      && (far && a.durationMin >= p.durationMin ==> a in r.confirmed)
      && (far && p.candidateDurationMin <= a.durationMin < p.durationMin ==> a in r.candidates)
  {
    var xs := Interactions(Downsample(sigs), p, dist);
    var ss := PairSessions(xs, k, p);
    var a := Summarize(k, ss[j]);
    var v := Classify(k, ss[j], p, ports, dist);
    ClassifyTiers(k, ss[j], p, ports, dist);
    assert ClassifiedAt(k, ss, j, p, ports, dist, v);
    DetectExactly(sigs, p, ports, dist, a);
  }

  // ---------------------------------------------------------------------
  // Empty results
  // ---------------------------------------------------------------------

  /** With no interaction at all, both tables are empty. */
  lemma NoInteractionsNoAnomalies(sigs: seq<Signal>, p: Params, ports: seq<Port>, dist: (Pos, Pos) -> real)
    requires Interactions(Downsample(sigs), p, dist) == []
    ensures Detect(sigs, p, ports, dist) == Detected([], [])
  {
  }

  /** Vessels that are all at or above the speed threshold never produce an anomaly. */
  lemma AllFastNoAnomalies(sigs: seq<Signal>, p: Params, ports: seq<Port>, dist: (Pos, Pos) -> real)
    requires forall s :: s in sigs ==> s.sog >= p.sogThreshold
    ensures Detect(sigs, p, ports, dist) == Detected([], [])
  {
    var rows := Downsample(sigs);
    DownsampleKeepsEarliest(sigs);
    InteractionNeedsSlowRow(rows, p, dist);
    forall r | r in rows ensures r.sog >= p.sogThreshold {
      var i :| 0 <= i < |rows| && rows[i] == r;
      assert IsEarliestOfGroup(sigs, rows[i]);
    }
  }
}
