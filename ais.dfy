/**
 * AIS signals, detection parameters and the time grid used by the
 * detector. Timestamps are whole seconds since the epoch.
 */
module Ais {
  import opened Geo

  datatype Signal = Signal(mmsi: int, lat: real, lon: real, sog: real, utc: int)

  function Position(s: Signal): Pos { Pos(s.lat, s.lon) }

  /** The thresholds of one detection run; any of them may come from a request. */
  datatype Params = Params(
    proximityKm: real,
    durationMin: real,
    candidateDurationMin: real,
    sogThreshold: real,
    portDistKm: real,
    timeGapMin: real)

  const SecondsPerMinute: int := 60
  const BucketSeconds: int := 300

  /** Start of the 1-minute interval holding `t` (pandas floor to '1min'). */
  function FloorToMinute(t: int): (r: int)
    ensures r <= t < r + SecondsPerMinute && r % SecondsPerMinute == 0
  {
    (t / SecondsPerMinute) * SecondsPerMinute
  }

  /** Start of the 5-minute interval holding `t` (pandas floor to '5min'). */
  function FloorTo5Min(t: int): (r: int)
    ensures r <= t < r + BucketSeconds && r % BucketSeconds == 0
  {
    (t / BucketSeconds) * BucketSeconds
  }
}
