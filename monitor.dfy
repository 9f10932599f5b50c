/**
 * The early-warning monitor: on each check it runs the detector over the
 * signals fetched for the lookback window, keeps the confirmed anomalies
 * that have not been alerted in the last 24 hours, notifies about them and
 * appends one record to the alert history.
 *
 * The alert history is an in-memory sequence of documents owned by
 * `AlertStore`. The clock (`now`, in seconds), the fetched signals and the
 * notifier are parameters.
 */
module Monitor {
  import opened Wrappers
  import opened Geo
  import opened Ais
  import opened Sessions
  import opened Detection

  const DaySeconds: int := 24 * 60 * 60

  /** An anomaly as handed to the notifier and stored in the history. */
  datatype EmailAnomaly = EmailAnomaly(
    mmsi1: int, mmsi2: int,
    durationMin: real,
    startTime: int, endTime: int,
    lat: real, lon: real)

  /**
   * A document of the alert history. `KeyedAlert` is a document carrying
   * the four top-level fields the lookup queries; nothing in this program
   * writes one. `AlertRecord` is what `RecordAlert` writes.
   */
  datatype AlertDoc =
    | KeyedAlert(mmsi1: int, mmsi2: int, startTime: int, alertSentAt: int)
    | AlertRecord(detectedAt: int, anomalyCount: int, anomalies: seq<EmailAnomaly>, emailSent: bool,
                  detectionParams: Params)

  datatype CheckResult = CheckResult(confirmedCount: int, candidateCount: int, emailSent: bool)

  // ---------------------------------------------------------------------
  // Formatting
  // ---------------------------------------------------------------------

  /** Reads an email anomaly back as a detector record. */
  function AnomalyOf(e: EmailAnomaly): Anomaly {
    Anomaly(e.mmsi1, e.mmsi2, e.startTime, e.endTime, e.durationMin, e.lat, e.lon)
  }

  /** The email view of a confirmed record: no field is lost. */
  function FormatAnomalyForEmail(a: Anomaly): (e: EmailAnomaly)
    ensures AnomalyOf(e) == a
  {
    EmailAnomaly(a.mmsi1, a.mmsi2, a.durationMin, a.startTime, a.endTime, a.lat, a.lon)
  }

  /** Two records format alike only if they are the same record. */
  lemma FormatInjective(a: Anomaly, b: Anomaly)
    requires FormatAnomalyForEmail(a) == FormatAnomalyForEmail(b)
    ensures a == b
  {
    assert AnomalyOf(FormatAnomalyForEmail(a)) == AnomalyOf(FormatAnomalyForEmail(b));
  }

  function FormatAll(records: seq<Anomaly>): (es: seq<EmailAnomaly>)
    ensures |es| == |records|
    ensures forall i :: 0 <= i < |records| ==> AnomalyOf(es[i]) == records[i]
  {
    if records == [] then [] else [FormatAnomalyForEmail(records[0])] + FormatAll(records[1..])
  }

  // ---------------------------------------------------------------------
  // The alert history
  // ---------------------------------------------------------------------

  /** Whether `d` answers the lookup for (m1, m2, start) sent at or after `since`. */
  predicate Matches(d: AlertDoc, m1: int, m2: int, start: int, since: int) {
    d.KeyedAlert? && d.mmsi1 == m1 && d.mmsi2 == m2 && d.startTime == start && d.alertSentAt >= since
  }

  /** Whether some document of `docs` answers the lookup. */
  function Alerted(docs: seq<AlertDoc>, m1: int, m2: int, start: int, since: int): (b: bool)
    ensures b <==> exists i :: 0 <= i < |docs| && Matches(docs[i], m1, m2, start, since)
  {
    if docs == [] then false
    else Matches(docs[0], m1, m2, start, since) || Alerted(docs[1..], m1, m2, start, since)
  }

  /** A record written by `RecordAlert` never answers the lookup: appending one changes no answer. */
  lemma {:induction false} RecordNeverMatches(docs: seq<AlertDoc>, r: AlertDoc, m1: int, m2: int, start: int,
                                              since: int)
    requires r.AlertRecord?
    ensures Alerted(docs + [r], m1, m2, start, since) == Alerted(docs, m1, m2, start, since)
  {
    if docs != [] {
      RecordNeverMatches(docs[1..], r, m1, m2, start, since);
      assert (docs + [r])[1..] == docs[1..] + [r];
    }
  }

  class AlertStore {
    var docs: seq<AlertDoc>

    constructor (initial: seq<AlertDoc>)
      ensures docs == initial
    {
      docs := initial;
    }

    /** True iff the history holds a matching alert sent within the last 24 hours. */
    method CheckIfAlreadyAlerted(m1: int, m2: int, start: int, now: int) returns (found: bool)
      ensures found <==> Alerted(docs, m1, m2, start, now - DaySeconds)
      ensures found <==> (exists i :: 0 <= i < |docs| && docs[i].KeyedAlert? && docs[i].mmsi1 == m1
                                && docs[i].mmsi2 == m2 && docs[i].startTime == start
                                && docs[i].alertSentAt >= now - DaySeconds)
    {
      var since := now - DaySeconds;
      var i := 0;
      while i < |docs|
        invariant 0 <= i <= |docs|
        invariant forall j :: 0 <= j < i ==> !Matches(docs[j], m1, m2, start, since)
      {
        if Matches(docs[i], m1, m2, start, since) {
          return true;
        }
        i := i + 1;
      }
      return false;
    }

    /** Appends one record holding `anomalies`; nothing else changes. */
    method RecordAlert(anomalies: seq<EmailAnomaly>, emailSent: bool, now: int, params: Params)
      modifies this
      ensures docs == old(docs) + [AlertRecord(now, |anomalies|, anomalies, emailSent, params)]
    {
      docs := docs + [AlertRecord(now, |anomalies|, anomalies, emailSent, params)];
    }
  }

  // ---------------------------------------------------------------------
  // One check
  // ---------------------------------------------------------------------

  /** The confirmed records not alerted since `since`, in their original order. */
  function NewAnomalies(docs: seq<AlertDoc>, confirmed: seq<Anomaly>, since: int): seq<Anomaly>
  {
    if confirmed == [] then []
    else
      var a := confirmed[|confirmed| - 1];
      NewAnomalies(docs, confirmed[..|confirmed| - 1], since)
        + (if Alerted(docs, a.mmsi1, a.mmsi2, a.startTime, since) then [] else [a])
  }

  /** The check record: every confirmed record, formatted, with the time, the send flag and the parameters. */
  function Record(now: int, confirmed: seq<Anomaly>, emailSent: bool, p: Params): (r: AlertDoc)
    ensures r.AlertRecord? && r.anomalyCount == |confirmed| && |r.anomalies| == |confirmed|
    ensures forall i :: 0 <= i < |confirmed| ==> AnomalyOf(r.anomalies[i]) == confirmed[i]
    ensures r.detectedAt == now && r.emailSent == emailSent && r.detectionParams == p
  {
    AlertRecord(now, |confirmed|, FormatAll(confirmed), emailSent, p)
  }

  /**
   * The outcome of one check and the history after it. `data` is what the
   * fetch returned, `emailEnabled` the monitor-wide switch, `notify` the
   * mail transport (its answer is whether the mail went out).
   */
  function Check(docs: seq<AlertDoc>, data: seq<Signal>, p: Params, ports: seq<Port>, dist: (Pos, Pos) -> real,
                 sendAlerts: bool, emailEnabled: bool, now: int, notify: seq<EmailAnomaly> -> bool)
    : (CheckResult, seq<AlertDoc>)
  {
    if data == [] then (CheckResult(0, 0, false), docs)
    else
      var d := Detect(data, p, ports, dist);
      var counts := (|d.confirmed|, |d.candidates|);
      if |d.confirmed| == 0 then (CheckResult(counts.0, counts.1, false), docs)
      else
        var unseen := NewAnomalies(docs, d.confirmed, now - DaySeconds);
        if unseen == [] then (CheckResult(counts.0, counts.1, false), docs)
        else if sendAlerts && emailEnabled then
          var sent := notify(FormatAll(unseen));
          (CheckResult(counts.0, counts.1, sent), docs + [Record(now, d.confirmed, sent, p)])
        else (CheckResult(counts.0, counts.1, false), docs + [Record(now, d.confirmed, false, p)])
  }

  method CheckForAnomalies(store: AlertStore, config: MonitorConfig, data: seq<Signal>, p: Params,
                           ports: seq<Port>, dist: (Pos, Pos) -> real, sendAlerts: bool, now: int,
                           notify: seq<EmailAnomaly> -> bool)
    returns (result: CheckResult)
    modifies store
    ensures (result, store.docs)
         == Check(old(store.docs), data, p, ports, dist, sendAlerts, config.sendEmailAlerts, now, notify)
  {
    if data == [] {
      return CheckResult(0, 0, false);
    }
    var confirmed, candidates := DetectAnomalies(data, p, ports, dist);
    var emailSent := false;
    if |confirmed| > 0 {
      var unseen := SelectNewAnomalies(store, confirmed, now);
      if unseen == [] {
      } else if sendAlerts && config.sendEmailAlerts {
        emailSent := notify(FormatAll(unseen));
        store.RecordAlert(FormatAll(confirmed), emailSent, now, p);
      } else {
        store.RecordAlert(FormatAll(confirmed), false, now, p);
      }
    }
    result := CheckResult(|confirmed|, |candidates|, emailSent);
  }

  /** The loop that keeps the confirmed records not alerted in the last 24 hours. */
  method SelectNewAnomalies(store: AlertStore, confirmed: seq<Anomaly>, now: int) returns (unseen: seq<Anomaly>)
    ensures unseen == NewAnomalies(store.docs, confirmed, now - DaySeconds)
  {
    unseen := [];
    var i := 0;
    while i < |confirmed|
      invariant 0 <= i <= |confirmed|
      invariant unseen == NewAnomalies(store.docs, confirmed[..i], now - DaySeconds)
    {
      var row := confirmed[i];
      assert confirmed[..i + 1][..i] == confirmed[..i];
      var seen := store.CheckIfAlreadyAlerted(row.mmsi1, row.mmsi2, row.startTime, now);
      if !seen {
        unseen := unseen + [row];
      }
      i := i + 1;
    }
    assert confirmed[..i] == confirmed;
  }

  // ---------------------------------------------------------------------
  // Properties of one check
  // ---------------------------------------------------------------------

  /** A confirmed record is new exactly when no matching alert was sent in the window. */
  lemma {:induction false} NewAnomaliesExactly(docs: seq<AlertDoc>, confirmed: seq<Anomaly>, since: int, a: Anomaly)
    ensures a in NewAnomalies(docs, confirmed, since) <==>
      a in confirmed && !Alerted(docs, a.mmsi1, a.mmsi2, a.startTime, since)
  {
    if confirmed != [] {
      var last := |confirmed| - 1;
      NewAnomaliesExactly(docs, confirmed[..last], since, a);
      assert confirmed == confirmed[..last] + [confirmed[last]];
    }
  }

  /** The filter keeps a record not alerted since `since` as often as it was confirmed, and an alerted one never. */
  lemma {:induction false} NewAnomaliesCount(docs: seq<AlertDoc>, confirmed: seq<Anomaly>, since: int, a: Anomaly)
    ensures multiset(NewAnomalies(docs, confirmed, since))[a]
         == if Alerted(docs, a.mmsi1, a.mmsi2, a.startTime, since) then 0 else multiset(confirmed)[a]
  {
    if confirmed != [] {
      var last := |confirmed| - 1;
      var init := confirmed[..last];
      var b := confirmed[last];
      NewAnomaliesCount(docs, init, since, a);
      assert confirmed == init + [b];
      assert multiset(confirmed) == multiset(init) + multiset{b};
      var keep := if Alerted(docs, b.mmsi1, b.mmsi2, b.startTime, since) then [] else [b];
      assert NewAnomalies(docs, confirmed, since) == NewAnomalies(docs, init, since) + keep;
      assert multiset(NewAnomalies(docs, confirmed, since)) == multiset(NewAnomalies(docs, init, since)) + multiset(keep);
    }
  }

  /** When nothing was alerted before, every confirmed record is new, in the same order. */
  lemma {:induction false} NothingAlertedAllNew(docs: seq<AlertDoc>, confirmed: seq<Anomaly>, since: int)
    requires forall a :: a in confirmed ==> !Alerted(docs, a.mmsi1, a.mmsi2, a.startTime, since)
    ensures NewAnomalies(docs, confirmed, since) == confirmed
  {
    if confirmed != [] {
      var last := |confirmed| - 1;
      var init := confirmed[..last];
      var a := confirmed[last];
      NothingAlertedAllNew(docs, init, since);
      assert !Alerted(docs, a.mmsi1, a.mmsi2, a.startTime, since);
      assert NewAnomalies(docs, confirmed, since) == init + [a];
      assert init + [a] == confirmed;
    }
  }

  /** When everything was alerted before, nothing is new. */
  lemma {:induction false} AllAlertedNoneNew(docs: seq<AlertDoc>, confirmed: seq<Anomaly>, since: int)
    requires forall a :: a in confirmed ==> Alerted(docs, a.mmsi1, a.mmsi2, a.startTime, since)
    ensures NewAnomalies(docs, confirmed, since) == []
  {
    if confirmed != [] {
      var last := |confirmed| - 1;
      AllAlertedNoneNew(docs, confirmed[..last], since);
    }
  }

  /** Empty fetched data: nothing detected, nothing sent, nothing written. */
  lemma EmptyDataNoop(docs: seq<AlertDoc>, p: Params, ports: seq<Port>, dist: (Pos, Pos) -> real,
                      sendAlerts: bool, emailEnabled: bool, now: int, notify: seq<EmailAnomaly> -> bool)
    ensures Check(docs, [], p, ports, dist, sendAlerts, emailEnabled, now, notify) == (CheckResult(0, 0, false), docs)
  {
  }

  /**
   * The counts are the sizes of the detector's two tables; with no
   * confirmed record nothing is sent and nothing is written.
   */
  lemma CheckCounts(docs: seq<AlertDoc>, data: seq<Signal>, p: Params, ports: seq<Port>, dist: (Pos, Pos) -> real,
                    sendAlerts: bool, emailEnabled: bool, now: int, notify: seq<EmailAnomaly> -> bool)
    requires data != []
    ensures var (r, after) := Check(docs, data, p, ports, dist, sendAlerts, emailEnabled, now, notify);
      var d := Detect(data, p, ports, dist);
      && r.confirmedCount == |d.confirmed|
      && r.candidateCount == |d.candidates|
      && (d.confirmed == [] ==> !r.emailSent && after == docs)
  {
  }

  /**
   * With new anomalies and alerts enabled, the notifier gets exactly the
   * new ones, and one record holding every confirmed anomaly is appended
   * with the notifier's answer, whether or not the mail went out.
   */
  lemma NotifyThenRecord(docs: seq<AlertDoc>, data: seq<Signal>, p: Params, ports: seq<Port>, dist: (Pos, Pos) -> real,
                         now: int, notify: seq<EmailAnomaly> -> bool)
    requires data != []
    requires NewAnomalies(docs, Detect(data, p, ports, dist).confirmed, now - DaySeconds) != []
    ensures var (r, after) := Check(docs, data, p, ports, dist, true, true, now, notify);
      var d := Detect(data, p, ports, dist);
      var unseen := NewAnomalies(docs, d.confirmed, now - DaySeconds);
      && r.emailSent == notify(FormatAll(unseen))
      && after == docs + [Record(now, d.confirmed, r.emailSent, p)]
      && after[|docs|].anomalyCount == |d.confirmed|
      && forall i :: 0 <= i < |d.confirmed| ==> AnomalyOf(after[|docs|].anomalies[i]) == d.confirmed[i]
  {
    var d := Detect(data, p, ports, dist);
    assert d.confirmed != [] by {
      assert NewAnomalies(docs, [], now - DaySeconds) == [];
    }
  }

  /**
   * When every confirmed anomaly was alerted already, nothing is sent and
   * nothing is written; with alerts switched off, the record is written
   * with `emailSent` false and the notifier is not consulted.
   */
  lemma SkipOrRecordUnsent(docs: seq<AlertDoc>, data: seq<Signal>, p: Params, ports: seq<Port>,
                           dist: (Pos, Pos) -> real, sendAlerts: bool, emailEnabled: bool, now: int,
                           notify: seq<EmailAnomaly> -> bool)
    requires data != []
    ensures var (r, after) := Check(docs, data, p, ports, dist, sendAlerts, emailEnabled, now, notify);
      var d := Detect(data, p, ports, dist);
      var unseen := NewAnomalies(docs, d.confirmed, now - DaySeconds);
      && (unseen == [] ==> !r.emailSent && after == docs)
      && (unseen != [] && !(sendAlerts && emailEnabled) ==>
            !r.emailSent && after == docs + [Record(now, d.confirmed, false, p)])
  {
    var d := Detect(data, p, ports, dist);
    if d.confirmed == [] {
      assert NewAnomalies(docs, d.confirmed, now - DaySeconds) == [];
    }
  }

  /** A check appends at most one record, and only an `AlertRecord`. */
  lemma CheckAppendsOneRecord(docs: seq<AlertDoc>, data: seq<Signal>, p: Params, ports: seq<Port>,
                              dist: (Pos, Pos) -> real, sendAlerts: bool, emailEnabled: bool, now: int,
                              notify: seq<EmailAnomaly> -> bool)
    ensures var after := Check(docs, data, p, ports, dist, sendAlerts, emailEnabled, now, notify).1;
      && |docs| <= |after| <= |docs| + 1
      && after[..|docs|] == docs
      && (|after| == |docs| + 1 ==> after[|docs|].AlertRecord?)
  {
  }

  // ---------------------------------------------------------------------
  // The monitoring loop
  // ---------------------------------------------------------------------

  class MonitorConfig {
    var checkIntervalMinutes: int
    var lookbackWindowMinutes: int
    var sendEmailAlerts: bool

    constructor (checkIntervalMinutes: int, lookbackWindowMinutes: int, sendEmailAlerts: bool)
      ensures this.checkIntervalMinutes == checkIntervalMinutes
      ensures this.lookbackWindowMinutes == lookbackWindowMinutes
      ensures this.sendEmailAlerts == sendEmailAlerts
    {
      this.checkIntervalMinutes := checkIntervalMinutes;
      this.lookbackWindowMinutes := lookbackWindowMinutes;
      this.sendEmailAlerts := sendEmailAlerts;
    }

    /** The `--no-email` switch turns alerts off for the whole run; nothing else changes. */
    method ApplyNoEmail(noEmail: bool)
      modifies this
      ensures sendEmailAlerts == (old(sendEmailAlerts) && !noEmail)
      ensures checkIntervalMinutes == old(checkIntervalMinutes)
      ensures lookbackWindowMinutes == old(lookbackWindowMinutes)
    {
      if noEmail {
        sendEmailAlerts := false;
      }
    }
  }

  /** One iteration of the loop: the clock reading and what the fetch gave, or `None` when the check raised. */
  datatype Tick = Tick(now: int, data: Option<seq<Signal>>)

  /** The history after one tick; a tick whose check raised leaves it as it was. */
  function AfterTick(docs: seq<AlertDoc>, t: Tick, p: Params, ports: seq<Port>, dist: (Pos, Pos) -> real,
                     emailEnabled: bool, notify: seq<EmailAnomaly> -> bool): seq<AlertDoc>
  {
    match t.data
    case None => docs
    case Some(data) => Check(docs, data, p, ports, dist, true, emailEnabled, t.now, notify).1
  }

  /** The history after a run of ticks, one check per tick in order. */
  function RunTicks(docs: seq<AlertDoc>, ticks: seq<Tick>, p: Params, ports: seq<Port>, dist: (Pos, Pos) -> real,
                    emailEnabled: bool, notify: seq<EmailAnomaly> -> bool): seq<AlertDoc>
  {
    if ticks == [] then docs
    else
      AfterTick(RunTicks(docs, ticks[..|ticks| - 1], p, ports, dist, emailEnabled, notify), ticks[|ticks| - 1],
                p, ports, dist, emailEnabled, notify)
  }

  /**
   * The loop runs one check per tick, counting every tick, including one
   * whose check raised; a raising check leaves the history untouched.
   */
  method ContinuousMonitoring(store: AlertStore, config: MonitorConfig, ticks: seq<Tick>, p: Params,
                              ports: seq<Port>, dist: (Pos, Pos) -> real, notify: seq<EmailAnomaly> -> bool)
    returns (checkCount: int)
    modifies store
    ensures checkCount == |ticks|
    ensures store.docs == RunTicks(old(store.docs), ticks, p, ports, dist, config.sendEmailAlerts, notify)
  {
    checkCount := 0;
    while checkCount < |ticks|
      invariant 0 <= checkCount <= |ticks|
      invariant store.docs == RunTicks(old(store.docs), ticks[..checkCount], p, ports, dist, config.sendEmailAlerts, notify)
    {
      var tick := ticks[checkCount];
      RunTicksStep(old(store.docs), ticks, checkCount, p, ports, dist, config.sendEmailAlerts, notify);
      checkCount := checkCount + 1;
      match tick.data {
        case None =>
        case Some(data) =>
          var _ := CheckForAnomalies(store, config, data, p, ports, dist, true, tick.now, notify);
      }
    }
    assert ticks[..checkCount] == ticks;
  }

  lemma RunTicksStep(docs: seq<AlertDoc>, ticks: seq<Tick>, n: int, p: Params, ports: seq<Port>,
                      dist: (Pos, Pos) -> real, emailEnabled: bool, notify: seq<EmailAnomaly> -> bool)
    requires 0 <= n < |ticks|
    ensures RunTicks(docs, ticks[..n + 1], p, ports, dist, emailEnabled, notify)
         == AfterTick(RunTicks(docs, ticks[..n], p, ports, dist, emailEnabled, notify), ticks[n],
                      p, ports, dist, emailEnabled, notify)
  {
    assert ticks[..n + 1][..n] == ticks[..n];
  }

  /** A single check reports success iff some anomaly was confirmed; a raising check reports failure. */
  method SingleCheck(store: AlertStore, config: MonitorConfig, tick: Tick, p: Params, ports: seq<Port>,
                     dist: (Pos, Pos) -> real, notify: seq<EmailAnomaly> -> bool)
    returns (ok: bool)
    modifies store
    ensures store.docs == AfterTick(old(store.docs), tick, p, ports, dist, config.sendEmailAlerts, notify)
    ensures ok <==> (tick.data.Some? &&
      Check(old(store.docs), tick.data.value, p, ports, dist, true, config.sendEmailAlerts, tick.now, notify).0.confirmedCount > 0)
  {
    match tick.data {
      case None =>
        ok := false;
      case Some(data) =>
        var r := CheckForAnomalies(store, config, data, p, ports, dist, true, tick.now, notify);
        ok := r.confirmedCount > 0;
    }
  }

  // ---------------------------------------------------------------------
  // Properties of the loop
  // ---------------------------------------------------------------------

  /** `after` is `docs` followed by records the monitor wrote. */
  ghost predicate Extends(after: seq<AlertDoc>, docs: seq<AlertDoc>) {
    |docs| <= |after| && after[..|docs|] == docs && forall i :: |docs| <= i < |after| ==> after[i].AlertRecord?
  }

  lemma ExtendsStep(docs: seq<AlertDoc>, mid: seq<AlertDoc>, after: seq<AlertDoc>)
    requires Extends(mid, docs)
    requires after == mid || (|after| == |mid| + 1 && after[..|mid|] == mid && after[|mid|].AlertRecord?)
    ensures Extends(after, docs)
  {
    if after != mid {
      assert after[..|docs|] == after[..|mid|][..|docs|];
    }
  }

  /** The history only grows: at most one record per tick, the old documents kept in place. */
  lemma {:induction false} RunTicksAppendsOnly(docs: seq<AlertDoc>, ticks: seq<Tick>, p: Params, ports: seq<Port>,
                                               dist: (Pos, Pos) -> real, emailEnabled: bool,
                                               notify: seq<EmailAnomaly> -> bool)
    ensures var after := RunTicks(docs, ticks, p, ports, dist, emailEnabled, notify);
      Extends(after, docs) && |after| <= |docs| + |ticks|
  {
    if ticks == [] {
      assert docs[..|docs|] == docs;
    } else {
      var last := |ticks| - 1;
      var before := RunTicks(docs, ticks[..last], p, ports, dist, emailEnabled, notify);
      RunTicksAppendsOnly(docs, ticks[..last], p, ports, dist, emailEnabled, notify);
      var t := ticks[last];
      if t.data.Some? {
        CheckAppendsOneRecord(before, t.data.value, p, ports, dist, true, emailEnabled, t.now, notify);
        ExtendsStep(docs, before, Check(before, t.data.value, p, ports, dist, true, emailEnabled, t.now, notify).1);
      }
    }
  }

  /** Ticks whose check raised leave the history as it was. */
  lemma {:induction false} FailedTicksChangeNothing(docs: seq<AlertDoc>, ticks: seq<Tick>, p: Params,
                                                    ports: seq<Port>, dist: (Pos, Pos) -> real,
                                                    emailEnabled: bool, notify: seq<EmailAnomaly> -> bool)
    requires forall i :: 0 <= i < |ticks| ==> ticks[i].data.None?
    ensures RunTicks(docs, ticks, p, ports, dist, emailEnabled, notify) == docs
  {
    if ticks != [] {
      FailedTicksChangeNothing(docs, ticks[..|ticks| - 1], p, ports, dist, emailEnabled, notify);
    }
  }

  /** One check leaves every lookup as it was: the record it may add never matches. */
  lemma CheckKeepsLookup(before: seq<AlertDoc>, data: seq<Signal>, p: Params, ports: seq<Port>,
                         dist: (Pos, Pos) -> real, emailEnabled: bool, now: int,
                         notify: seq<EmailAnomaly> -> bool, m1: int, m2: int, start: int, since: int)
    ensures Alerted(Check(before, data, p, ports, dist, true, emailEnabled, now, notify).1, m1, m2, start, since)
         == Alerted(before, m1, m2, start, since)
  {
    var after := Check(before, data, p, ports, dist, true, emailEnabled, now, notify).1;
    CheckAppendsOneRecord(before, data, p, ports, dist, true, emailEnabled, now, notify);
    if |after| == |before| + 1 {
      assert after == before + [after[|before|]];
      RecordNeverMatches(before, after[|before|], m1, m2, start, since);
    }
  }

  /**
   * The 24-hour de-duplication never fires on the monitor's own records:
   * after any run, every lookup answers as it did on the initial history.
   */
  lemma {:induction false} LookupUnchangedByRun(docs: seq<AlertDoc>, ticks: seq<Tick>, p: Params, ports: seq<Port>,
                                                dist: (Pos, Pos) -> real, emailEnabled: bool,
                                                notify: seq<EmailAnomaly> -> bool,
                                                m1: int, m2: int, start: int, since: int)
    ensures Alerted(RunTicks(docs, ticks, p, ports, dist, emailEnabled, notify), m1, m2, start, since)
         == Alerted(docs, m1, m2, start, since)
  {
    if ticks != [] {
      var last := |ticks| - 1;
      var before := RunTicks(docs, ticks[..last], p, ports, dist, emailEnabled, notify);
      LookupUnchangedByRun(docs, ticks[..last], p, ports, dist, emailEnabled, notify, m1, m2, start, since);
      var t := ticks[last];
      if t.data.Some? {
        CheckKeepsLookup(before, t.data.value, p, ports, dist, emailEnabled, t.now, notify, m1, m2, start, since);
      }
    }
  }

  /**
   * Consequence: starting from a history the monitor wrote itself, every
   * confirmed anomaly counts as new on every later check, so the same
   * anomaly is notified again at each tick that still detects it.
   */
  lemma RepeatedAlerts(initial: seq<AlertDoc>, ticks: seq<Tick>, p: Params, ports: seq<Port>,
                       dist: (Pos, Pos) -> real, emailEnabled: bool, notify: seq<EmailAnomaly> -> bool,
                       confirmed: seq<Anomaly>, since: int)
    requires forall i :: 0 <= i < |initial| ==> initial[i].AlertRecord?
    ensures NewAnomalies(RunTicks(initial, ticks, p, ports, dist, emailEnabled, notify), confirmed, since) == confirmed
  {
    var docs := RunTicks(initial, ticks, p, ports, dist, emailEnabled, notify);
    forall a | a in confirmed ensures !Alerted(docs, a.mmsi1, a.mmsi2, a.startTime, since) {
      LookupUnchangedByRun(initial, ticks, p, ports, dist, emailEnabled, notify, a.mmsi1, a.mmsi2, a.startTime, since);
    }
    NothingAlertedAllNew(docs, confirmed, since);
  }
}
