/**
 * Positions, ports and the port-exclusion test.
 *
 * Great-circle distance (haversine) is not modelled numerically: every
 * operation that needs it takes a distance function `dist` in kilometres.
 * `IsDistance` states the laws the haversine distance obeys and that some
 * lemmas rely on.
 */
module Geo {

  datatype Pos = Pos(lat: real, lon: real)

  datatype Port = Port(name: string, lat: real, lon: real)

  function PortPos(port: Port): Pos { Pos(port.lat, port.lon) }

  ghost predicate IsDistance(dist: (Pos, Pos) -> real) {
    && (forall p, q :: dist(p, q) >= 0.0)
    && (forall p, q :: dist(p, q) == dist(q, p))
    && (forall p :: dist(p, p) == 0.0)
  }

  /**
   * True when `p` is at least `minDistanceKm` from every port. The ports are
   * scanned in order and the scan stops at the first port strictly closer
   * than the limit.
   */
  function IsFarFromPorts(p: Pos, ports: seq<Port>, minDistanceKm: real,
                          dist: (Pos, Pos) -> real): (far: bool)
    ensures far <==> forall k :: 0 <= k < |ports| ==> dist(p, PortPos(ports[k])) >= minDistanceKm
    ensures ports == [] ==> far
  {
    if ports == [] then true
    else if dist(p, PortPos(ports[0])) < minDistanceKm then false
    else IsFarFromPorts(p, ports[1..], minDistanceKm, dist)
  }
}
