# AIS transhipment early warning, modelled in Dafny

This is a model of the core of an AIS (Automatic Identification System) monitoring backend. The backend looks for suspected ship-to-ship transhipments: two vessels that sit slowly next to each other at sea, far from any port, for long enough.

The model covers three parts:

- **The detector** (`backend/anomaly_logic.py`).
  1. It downsamples the AIS signals to at most one row per vessel and minute.
  2. Within each 5-minute bucket, it pairs rows of slow vessels that lie within a radius of each other.
  3. It groups the pairings by vessel pair and splits each pair's pairings into sessions at time gaps.
  4. It keeps the sessions whose mean position is far from every port.
  5. It returns two tables: confirmed records (long enough) and candidate records (shorter, but above a lower threshold).
- **The early-warning monitor** (`backend/early_warning_monitor.py`).
  - One check runs the detector over the fetched signals and drops the confirmed records already alerted in the last 24 hours.
  - When any are left and alerts are enabled, it notifies about them and appends one record to the alert history. With alerts disabled it appends the record marked as not sent.
  - The monitoring loop repeats the check and tolerates a check that raises.
- **The e-mail alert** (`backend/email_config.py`).
  - The priority rule of the message body.
  - The guards of a send, and the To and Cc headers.
  - The way a send that passed the guards and got past login appends the Cc addresses to the configured recipient list itself. The list is shared, not copied.

Modules, in dependency order:

| file | module | contents |
|---|---|---|
| `wrappers.dfy` | `Wrappers` | `Option` |
| `ordering.dfy` | `Ordering` | strict total orders, and sorting into distinct ascending keys (the key order of a group-by) |
| `geo.dfy` | `Geo` | positions, ports, the port-distance test |
| `ais.dfy` | `Ais` | AIS signals, detection thresholds, flooring times to the minute and to 5 minutes |
| `downsample.dfy` | `Downsampling` | one row per vessel and minute |
| `pairing.dfy` | `Pairing` | proximity pairing per 5-minute bucket |
| `sessions.dfy` | `Sessions` | per-pair sessions and their classification |
| `detection.dfy` | `Detection` | the whole detector and what its output means |
| `monitor.dfy` | `Monitor` | the alert history, one check, the monitoring loop |
| `email.dfy` | `Email` | address lists, message body, sending |

Conventions:

- **Time** is an integer number of seconds. Flooring to a minute is `t / 60 * 60` and flooring to 5 minutes is `t / 300 * 300`. These are pandas' `floor` on timestamps; Dafny's `/` floors for negative times as well.
- **Thresholds** (`durationMin`, `timeGapMin`, radius, speed) are reals, as the source reads them from the environment or a request.
- **Distance** between two positions is a parameter `dist`. The port test and the pairing radius both use it. `IsDistance` (zero on equal positions, symmetric, non-negative) is required only by the lemmas that need it.
- **Outside world.** The alert history is an in-memory sequence owned by the `AlertStore` class. These are parameters:
  - the clock (`now`);
  - the signals a fetch returned;
  - the mail transport (`notify`);
  - the outcome of the SMTP conversation (`SmtpOutcome`).

Behaviour of the source that the model keeps as written:

- **The lookup never sees the monitor's own records.** `check_if_already_alerted` queries top-level `mmsi_1`, `mmsi_2`, `start_time` and `alert_sent_at` fields. `record_alert` writes none of them: it writes one document per check, holding a list of anomalies. So records written by the monitor never suppress a later alert for the same pair and start time. `RecordNeverMatches`, `LookupUnchangedByRun` and `RepeatedAlerts` state this. The lookup itself is modelled faithfully, against documents that do carry those fields (`KeyedAlert`).
- **The Cc addresses stay in the recipient list.** `send_email_alert` appends the Cc list to the configured recipient list in place. After a send that passes the guards and gets past login with an active Cc list, every later message is addressed To the grown list. A refused send, or one that fails before login, leaves the list unchanged.
- **The same vessel can pair with itself.** Pairing skips only `j <= i`. Two rows of one vessel in the same bucket (two different minutes) can pair with each other, giving an interaction with `mmsi1 == mmsi2` (`SelfPairing`).

## Model

| member | source | states |
|---|---|---|
| `Geo.IsFarFromPorts` | backend/anomaly_logic.py:6-12 | a position is far from the ports iff no port is strictly closer than the minimum distance (a port exactly at the minimum does not disqualify); with no ports it is always far |
| `Ais.FloorToMinute` | backend/anomaly_logic.py:30 | the result is a whole minute, at or before the time and less than a minute before it |
| `Ais.FloorTo5Min` | backend/anomaly_logic.py:42 | the result is a multiple of 5 minutes, at or before the time and less than 5 minutes before it |
| `Ordering.SortedDistinct` | backend/anomaly_logic.py:30 | the group keys come out strictly ascending and are exactly the keys present in the input |
| `Ordering.SortedIsDistinct` | backend/anomaly_logic.py:30 | a strictly ascending key list has no key twice, so there is one group per key |
| `Ordering.PairLessIsStrictTotal` | backend/anomaly_logic.py:30 | the lexicographic order on (vessel, minute) and on vessel pairs is a strict total order |
| `Downsampling.Earliest` | backend/anomaly_logic.py:28-31 | the representative of a (vessel, minute) group is absent iff no signal has that key; otherwise it is a signal of that group with the earliest time in it |
| `Downsampling.GroupKeys` | backend/anomaly_logic.py:30 | the (vessel, minute) keys in ascending order, each once, exactly those of the input signals |
| `Downsampling.FloorKeepsKey` | backend/anomaly_logic.py:30-32 | stamping a row with its minute label keeps it in the same (vessel, minute) group |
| `Downsampling.DownsampleRow` | backend/anomaly_logic.py:28-33 | row i of the downsampled table is the earliest signal of the i-th group in key order, stamped with its minute |
| `Downsampling.DownsampleKeysAscending` | backend/anomaly_logic.py:28-33 | the downsampled table is strictly ascending by (vessel, minute), so it has at most one row per vessel and minute |
| `Downsampling.RowForSignal` | backend/anomaly_logic.py:28-33 | every input signal has a downsampled row with its vessel and minute |
| `Downsampling.DownsampleCoversEveryMinute` | backend/anomaly_logic.py:28-33 | no (vessel, minute) present in the input is lost by downsampling |
| `Downsampling.DownsampleKeepsEarliest` | backend/anomaly_logic.py:28-33 | every downsampled row is the earliest signal of its group, with speed and position unchanged |
| `Pairing.Buckets` | backend/anomaly_logic.py:42-49 | the 5-minute buckets are visited in ascending order, each once, exactly those holding a row |
| `Pairing.InBucket` | backend/anomaly_logic.py:49 | a bucket's group holds exactly the rows whose 5-minute floor is that bucket, each as often as it occurs in the table |
| `Pairing.Neighbors` | backend/anomaly_logic.py:57 | a radius query from row i returns valid indices, and index j is returned iff row j lies within the radius of row i (row i included when within its own radius) |
| `Pairing.NeighborsAscending` | backend/anomaly_logic.py:57 | the radius query lists each index once, in ascending order |
| `Pairing.Meet` | backend/anomaly_logic.py:72-78 | the interaction of two rows names both vessels, smaller id first, carries the bucket's start time and lies at the midpoint of the two positions |
| `Pairing.MeetSymmetric` | backend/anomaly_logic.py:72-78 | the interaction does not depend on which of the two rows comes first |
| `Pairing.QueryRadius` | backend/anomaly_logic.py:53-57 | one neighbour list per row of the bucket, each the radius query of that row |
| `Pairing.PairRow` | backend/anomaly_logic.py:64-78 | the interactions of row i are those with its listed neighbours j > i that are slow, in list order |
| `Pairing.SlowRowMeets` | backend/anomaly_logic.py:59-78 | a row at or above the speed threshold contributes nothing; a slow row contributes its pairings with its later slow neighbours |
| `Pairing.PairBucket` | backend/anomaly_logic.py:53-78 | the pairing loops over one bucket of at least two rows compute exactly the bucket's interactions, row by row |
| `Pairing.FindInteractions` | backend/anomaly_logic.py:49-78 | the bucket loop computes exactly the interactions of the table, bucket by bucket, and skips buckets of fewer than two rows |
| `Pairing.MeetsViaMembership` | backend/anomaly_logic.py:64-78 | an interaction comes from row i's neighbour list iff some listed neighbour j > i is slow and the interaction is the meeting of rows i and j |
| `Pairing.RowMeetsMembership` | backend/anomaly_logic.py:59-78 | an interaction comes from row i iff row i is slow and it meets a later slow row within the radius |
| `Pairing.GroupMeetsUpToMembership` | backend/anomaly_logic.py:59-78 | the interactions of the first n rows are exactly those met by one of those rows |
| `Pairing.GroupMeetsMembership` | backend/anomaly_logic.py:49-78 | a bucket of fewer than two rows yields nothing; otherwise an interaction is found iff rows i < j both slow and within the radius meet with that result |
| `Pairing.MeetsOverMembership` | backend/anomaly_logic.py:49-78 | an interaction is found over a list of buckets iff it is found in one of them |
| `Pairing.InteractionsExactly` | backend/anomaly_logic.py:49-78 | an interaction is in the output iff some bucket of at least two rows has rows i < j, both slow and within the radius, whose meeting it is |
| `Pairing.InteractionShape` | backend/anomaly_logic.py:72-78 | every interaction has its smaller vessel id first and is stamped with the start of a bucket that holds rows, a multiple of 5 minutes |
| `Pairing.MeetsOverTimeOrdered` | backend/anomaly_logic.py:49 | interactions over ascending buckets are stamped with those buckets and come out in non-decreasing time |
| `Pairing.InteractionsTimeOrdered` | backend/anomaly_logic.py:49 | all interactions come out in non-decreasing time |
| `Pairing.SelfPairing` | backend/anomaly_logic.py:59-78 | two slow rows of the same vessel at the same position in one bucket produce an interaction of that vessel with itself |
| `Pairing.MeetHasSlowRow` | backend/anomaly_logic.py:61-69 | a pairing in a bucket requires a row below the speed threshold |
| `Pairing.InteractionNeedsSlowRow` | backend/anomaly_logic.py:61-69 | if any interaction is found, some row of the table was below the speed threshold |
| `Pairing.GroupMeetsAllPairs` | backend/anomaly_logic.py:53-78 | the radius-query loops over one bucket give the same list, in the same order, as a plain nested loop over all pairs of rows i < j that keeps the slow pairs within the radius |
| `Pairing.GroupMeetsCount` | backend/anomaly_logic.py:59-78 | an interaction occurs in a bucket's output exactly as many times as there are pairs of rows i < j, both slow and within the radius, that meet with that result |
| `Pairing.MeetsOverCount` | backend/anomaly_logic.py:49-78 | over ascending buckets, an interaction occurs as many times as there are meeting row pairs in the bucket of its own time, and not at all when its time is not among the buckets |
| `Pairing.InteractionsCount` | backend/anomaly_logic.py:49-78 | in the whole output, an interaction occurs once per pair of rows i < j of its own bucket that meet with that result |
| `Sessions.PairKeys` | backend/anomaly_logic.py:90 | the vessel pairs are visited in ascending order, each once, exactly those with an interaction |
| `Sessions.OfPair` | backend/anomaly_logic.py:90 | a pair's group holds exactly the interactions of that pair, each as often as it occurs in the input |
| `Sessions.OfPairTimeOrdered` | backend/anomaly_logic.py:91 | a pair's interactions are already in time order, so sorting them by time changes no time |
| `Sessions.Split` | backend/anomaly_logic.py:92-95 | no session is empty; there are no sessions iff the pair has no interactions; the first session opens with the first interaction |
| `Sessions.SplitPartition` | backend/anomaly_logic.py:92-95 | the sessions, concatenated in order, are exactly the pair's interactions: nothing lost, duplicated or reordered |
| `Sessions.SplitAtGaps` | backend/anomaly_logic.py:92-93 | within a session no step between consecutive interactions exceeds the gap (a step equal to it stays inside); between consecutive sessions the step exceeds it |
| `Sessions.SplitSnoc` | backend/anomaly_logic.py:92-93 | one more interaction either opens a new session (the step from the last one exceeds the gap) or extends the last session |
| `Sessions.SplitSessions` | backend/anomaly_logic.py:91-95 | the session loop computes exactly the sessions of the pair's interactions |
| `Sessions.MinTime` | backend/anomaly_logic.py:101-105 | the start time is the time of one interaction of the session and no later than any of them |
| `Sessions.MaxTime` | backend/anomaly_logic.py:101-106 | the end time is the time of one interaction of the session and no earlier than any of them |
| `Sessions.Summarize` | backend/anomaly_logic.py:95-110 | a session record names the pair; its start and end are the earliest and latest interaction times of the session; its duration is their difference in minutes; its position is the mean of the session's positions |
| `Sessions.SummaryWithinBox` | backend/anomaly_logic.py:96-97 | the mean position lies in every latitude/longitude box that holds all of the session's positions |
| `Sessions.ClassifyTiers` | backend/anomaly_logic.py:96-116 | a session is confirmed iff it is far from the ports and lasted at least `durationMin`; a candidate iff far and its duration is in [`candidateDurationMin`, `durationMin`); a kept record is the session's summary, with start no later than end and a non-negative duration |
| `Sessions.ClassifySessions` | backend/anomaly_logic.py:95-116 | the per-session loop appends exactly the confirmed records and the candidate records of the pair's sessions, in session order |
| `Sessions.AggregateSessions` | backend/anomaly_logic.py:86-118 | the pair loop returns exactly the confirmed and the candidate records of all sessions of all pairs, pairs in ascending order |
| `Sessions.AggregateStep` | backend/anomaly_logic.py:90-116 | handling one more pair appends exactly that pair's records to each list |
| `Sessions.SessionVerdictsStep` | backend/anomaly_logic.py:95-116 | handling one more session appends its record to the list of its tier and to no other |
| `Sessions.ConfirmedOfAppend` | backend/anomaly_logic.py:114 | the confirmed records of two runs of verdicts are those of the first followed by those of the second |
| `Sessions.CandidatesOfAppend` | backend/anomaly_logic.py:116 | likewise for candidate records |
| `Sessions.ConfirmedOfMembership` | backend/anomaly_logic.py:113-114 | a record is in the confirmed list iff some session's verdict confirmed it |
| `Sessions.CandidatesOfMembership` | backend/anomaly_logic.py:115-116 | a record is in the candidate list iff some session's verdict made it a candidate |
| `Sessions.SessionVerdictsAt` | backend/anomaly_logic.py:95-116 | there is one verdict per session, and the j-th verdict is the classification of the j-th session |
| `Sessions.SessionVerdictsMembership` | backend/anomaly_logic.py:95-116 | a verdict is among a pair's verdicts iff it is the classification of one of its sessions |
| `Sessions.VerdictsOverMembership` | backend/anomaly_logic.py:90-116 | a verdict is among those of a list of pairs iff it is the verdict on a session of one of them |
| `Sessions.VerdictsMembership` | backend/anomaly_logic.py:90-116 | a verdict is produced iff it is the classification of a session of some interacting pair |
| `Detection.DetectAnomalies` | backend/anomaly_logic.py:15-118 | the detector returns exactly the confirmed and candidate tables of downsample, pair, split and classify, and two empty tables when nothing paired |
| `Detection.DetectExactly` | backend/anomaly_logic.py:80-118 | a record is confirmed (a candidate) iff it is the confirmed (candidate) verdict on a session of some interacting pair |
| `Detection.SessionMember` | backend/anomaly_logic.py:90-95 | every interaction in a session of a pair is an interaction of that pair |
| `Detection.RecordWellFormed` | backend/anomaly_logic.py:101-110 | a session record has its smaller vessel first; its start and end are bucket starts at which the pair met, with start no later than end; its duration is their difference in minutes |
| `Detection.ConfirmedSound` | backend/anomaly_logic.py:99-114 | every confirmed record lasted at least `durationMin`, lies far from every port and is well formed |
| `Detection.CandidateSound` | backend/anomaly_logic.py:99-116 | every candidate lasted at least `candidateDurationMin` but less than `durationMin`, lies far from every port and is well formed |
| `Detection.TiersDisjoint` | backend/anomaly_logic.py:113-116 | no record is both confirmed and a candidate |
| `Detection.SessionReported` | backend/anomaly_logic.py:95-116 | completeness: every session far from the ports is reported, as confirmed when long enough and as a candidate when in the lower tier |
| `Detection.NoInteractionsNoAnomalies` | backend/anomaly_logic.py:80-81 | with no interaction both tables are empty |
| `Detection.AllFastNoAnomalies` | backend/anomaly_logic.py:61-70 | if every signal is at or above the speed threshold, both tables are empty |
| `Monitor.FormatAnomalyForEmail` | backend/early_warning_monitor.py:153-163 | the e-mail view of a record keeps every field: it reads back as the same record |
| `Monitor.FormatInjective` | backend/early_warning_monitor.py:153-163 | two different records never format to the same e-mail view |
| `Monitor.FormatAll` | backend/early_warning_monitor.py:227-234 | the formatted list has one entry per record, in order, each reading back as that record |
| `Monitor.Alerted` | backend/early_warning_monitor.py:119-129 | a pair and start time were alerted iff some history document has that pair and start time and was sent at or after the cut-off |
| `Monitor.AlertStore.CheckIfAlreadyAlerted` | backend/early_warning_monitor.py:105-129 | the lookup finds an alert iff a document with the pair and start time was sent within the last 24 hours |
| `Monitor.RecordNeverMatches` | backend/early_warning_monitor.py:122-148 | appending a check record to the history never changes the lookup's answer |
| `Monitor.AlertStore.RecordAlert` | backend/early_warning_monitor.py:132-150 | the history grows by exactly one record holding the time, the count, the anomalies, the send flag and the detection parameters |
| `Monitor.Record` | backend/early_warning_monitor.py:142-148 | a check record holds the check's time, the number of confirmed records, every confirmed record in order (each reading back as that record), the send flag and the detection parameters |
| `Monitor.SelectNewAnomalies` | backend/early_warning_monitor.py:217-221 | the filter loop keeps exactly the confirmed records not alerted in the last 24 hours, in order |
| `Monitor.NewAnomaliesExactly` | backend/early_warning_monitor.py:217-221 | a record is new iff it is confirmed and its pair and start time were not alerted since the cut-off |
| `Monitor.NewAnomaliesCount` | backend/early_warning_monitor.py:217-221 | the filter keeps each confirmed record not alerted since the cut-off as often as it is confirmed, and drops every alerted one entirely |
| `Monitor.NothingAlertedAllNew` | backend/early_warning_monitor.py:217-221 | when no confirmed record was alerted, all of them are new, in their order |
| `Monitor.AllAlertedNoneNew` | backend/early_warning_monitor.py:217-224 | when every confirmed record was alerted, none is new |
| `Monitor.CheckForAnomalies` | backend/early_warning_monitor.py:166-254 | one check returns the counts and send flag and leaves the history exactly as the check's outcome prescribes |
| `Monitor.EmptyDataNoop` | backend/early_warning_monitor.py:187-189 | with no data a check reports (0, 0, not sent) and writes nothing |
| `Monitor.CheckCounts` | backend/early_warning_monitor.py:206-214 | a check reports the sizes of the detector's two tables; with no confirmed record it sends nothing and writes nothing |
| `Monitor.NotifyThenRecord` | backend/early_warning_monitor.py:225-240 | with new records and alerts enabled, the notifier gets exactly the new records, and one record of all confirmed records is written with the notifier's answer as its send flag |
| `Monitor.SkipOrRecordUnsent` | backend/early_warning_monitor.py:223-244 | with no new record nothing is sent or written; with new records but alerts disabled, all confirmed records are written as not sent |
| `Monitor.CheckAppendsOneRecord` | backend/early_warning_monitor.py:214-244 | a check only appends, at most one document, and that document is a check record |
| `Monitor.MonitorConfig.ApplyNoEmail` | backend/early_warning_monitor.py:416-417 | `--no-email` turns e-mail alerts off and leaves them as they were otherwise; the intervals are unchanged |
| `Monitor.ContinuousMonitoring` | backend/early_warning_monitor.py:257-305 | the loop counts every tick, including one whose check raised, and the history is the result of running the check on each tick in order |
| `Monitor.RunTicksStep` | backend/early_warning_monitor.py:279-296 | the history after one more tick is that tick's outcome applied to the history before it |
| `Monitor.SingleCheck` | backend/early_warning_monitor.py:308-336 | a single check applies one tick to the history and succeeds iff the check did not raise and found a confirmed record |
| `Monitor.ExtendsStep` | backend/early_warning_monitor.py:279-296 | appending nothing or one check record keeps the history an extension of where it started |
| `Monitor.RunTicksAppendsOnly` | backend/early_warning_monitor.py:279-296 | monitoring never rewrites or removes history: it only appends check records, at most one per tick |
| `Monitor.FailedTicksChangeNothing` | backend/early_warning_monitor.py:287-296 | ticks whose check raised leave the history unchanged |
| `Monitor.CheckKeepsLookup` | backend/early_warning_monitor.py:142-150 | a check never changes whether a pair and start time count as alerted |
| `Monitor.LookupUnchangedByRun` | backend/early_warning_monitor.py:279-296 | no run of the monitor changes whether a pair and start time count as alerted |
| `Monitor.RepeatedAlerts` | backend/early_warning_monitor.py:105-150 | starting from a history of the monitor's own records, every confirmed record stays new after any run, so the same anomaly is alerted again on every check |
| `Email.SplitOn` | backend/email_config.py:24 | splitting gives at least one part, and no part contains the separator |
| `Email.JoinSplit` | backend/email_config.py:24 | joining the parts of a split with the separator gives back the text |
| `Email.SplitJoin` | backend/email_config.py:24 | splitting a join of parts that hold no separator gives back the parts |
| `Email.RecipientList` | backend/email_config.py:24 | the recipient list joins back to the variable's text (empty when unset), and it is the single blank entry when that text is empty |
| `Email.CcList` | backend/email_config.py:25 | the Cc list is empty iff the variable is unset or empty, and otherwise joins back to its text |
| `Email.JoinAppend` | backend/email_config.py:216-218 | the header text of two non-empty lists appended is the first's text, the separator, then the second's text |
| `Email.HighPriority` | backend/email_config.py:49 | a message is high priority iff some anomaly lasted at least the high-priority duration |
| `Email.CreateEmailBody` | backend/email_config.py:36-166 | the body has one card per anomaly, numbered from 1 in order, each flagged high priority iff its duration reaches the threshold; the message is high priority iff some card is |
| `Email.Refused` | backend/email_config.py:181-191 | a send goes ahead iff there are anomalies, a sender and a password, and a recipient list other than empty or the single blank; the first failing guard is reported |
| `Email.EmailConfig.SendEmailAlert` | backend/email_config.py:169-227 | a message is built iff every guard passes; it reports sent iff SMTP delivered. The message counts the anomalies, is To the configured recipients, carries a Cc header iff the Cc list is active, and has the body's priority and the given or current detection time. Its cards are numbered from 1 in order, show the anomalies in order and are flagged as the body rule says. Once login succeeded with an active Cc list, the recipient list grows by the Cc list |
| `Email.GrownRecipientsStillPass` | backend/email_config.py:189-218 | after a list grows by the Cc list, it still passes the recipient guard, keeps the old recipients first, and its To header is the old header, a separator, then the Cc addresses |

## Left out

- **Haversine distance.** Haversine, the BallTree and the conversion to radians are left out. The model uses one parameter `dist` for the great-circle distance, in both the port test and the pairing radius, and tests `dist <= radius` for a neighbour. The source uses two different Earth radii here: the port test calls the `haversine` package, whose kilometre distance uses that package's mean radius (6371.0088 km), while the ball tree's radius is `proximity_km / 6371.0`. The model merges them into one `dist`, so this difference of about 0.0001 % is not modelled. The ball tree's own rounding is not modelled either.
- **Neighbour order.** A radius query is taken to return neighbours in ascending index order. The ball tree returns them in its own order, which only changes the order of interactions within a row, not which interactions occur or how often (`Pairing.GroupMeetsCount`).
- **Numeric casts.** The `float32` and `int32` casts and floating-point arithmetic are out: positions, speeds and means are reals and vessel ids are unbounded integers. The means are order-independent on reals, so an unstable sort of a pair's interactions cannot change a record. In floating point it could change the last bits.
- **Tie order of the sorts.** The downsample sort and the per-pair sort by time use quicksort, which is not stable. Among signals of one vessel and minute with the same time, the model keeps the first in input order. The per-pair sort is modelled as the identity, because the pair's interactions are already in time order (`Sessions.OfPairTimeOrdered`).
- **Missing fields and NaN.** Every signal is taken to have all its fields. The source's `.first()` takes, column by column, the first non-null value of a group, so with missing values a downsampled row can mix fields from different signals; the model keeps one whole signal. A NaN speed fails the `>=` tests at backend/anomaly_logic.py:61 and :69, so such a row counts as slow there; the model has no NaN.
- **Empty groups.** Minute groups and 5-minute buckets without rows are assumed not to appear in the group-by.
- **Timestamp type.** Time is whole seconds; sub-second timestamps are not modelled.
- `Sessions.Summarize`: `duration_min` is stored unrounded, whereas the source stores `round(duration_minutes, 2)`. The tier tests use the unrounded duration, as the source does.
- **Database and fetch.** MongoDB access (`get_database`, `fetch_recent_data`, `view_alert_history`) is out. The fetched signals are a parameter, an empty sequence standing for an empty data frame. The lookback window is carried in `MonitorConfig` but does not filter anything.
- **The clock.** The source reads the clock separately for each lookup and for the record. The model uses one `now` for the whole check.
- **Timestamps in records.** The e-mail view keeps times as integers. The source formats them as text (`strftime` or `str`), which is not modelled.
- **Program entry and the endless loop.** `time.sleep`, `KeyboardInterrupt`, argument parsing other than `--no-email`, and the mode selection in `main` are out. The endless loop is modelled over a finite sequence of ticks.
- **A check that raises.** It is modelled as raising before it writes anything: a tick with no data. An exception after the record was written is not modelled.
- **Mail transport and message format.** SMTP, MIME, HTML, CSS and the subject line are out. The body holds the facts the HTML shows (priority, count, detection time, numbered cards) and not their markup. The notifier used by a check is a deterministic function of the anomalies it is given. The SMTP conversation is reduced to how far it got (`SmtpOutcome`).
- **Environment parsing.** The parsing of the environment's numbers and of `MONITOR_SEND_EMAIL` is out: the parsed values are inputs.
- `test_email_configuration` is not part of this model (a manual diagnostic).
- **Other modules.** `backend/app.py`, `backend/seed_database.py`, `backend/simulate_anomaly.py` and `backend/manage_database.py` are callers and tools around the core and are not part of this model.
