/** The address resolver boundary: every address handed to the geocoder is
    first widened with a fixed locality suffix, and each geocode settles as a
    coordinate, a rejection (no match or a provider error), or never. */
module Geo {

  /** Appended to every free-text address before it is geocoded. */
  const Suffix: string := ", Istanbul, Turkey"

  function Geocodable(address: string): string {
    address + Suffix
  }

  /** A map coordinate; opaque to everything but the geocoder and the router. */
  datatype Coord = Coord(lat: real, lon: real)

  /** How one `ymaps.geocode(...)` promise settles. A response without any
      geo object makes `get(0).geometry` throw, which rejects just like a
      provider error, so both are `Rejected`. */
  datatype GeoOutcome = Resolved(at: Coord) | Rejected | Pending
}
