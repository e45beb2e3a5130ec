/**
 * The shared data model: one row of the `emissions` table, as both the
 * dashboard and the verification action read it.
 */
module Emission {

  /**
   * One telemetry sample. `createdAt` stands for the row's `created_at`
   * timestamp, which the store orders by; it is kept as an abstract,
   * totally ordered key. `co2Level` is the reading in ppm.
   */
  datatype Reading = Reading(id: string, createdAt: int, deviceId: string, co2Level: real)

  /** Oldest first: `created_at` never decreases along `s`. */
  ghost predicate NonDecreasing(s: seq<Reading>) {
    forall i, j :: 0 <= i < j < |s| ==> s[i].createdAt <= s[j].createdAt
  }

  /** Newest first, the order the store's queries ask for. */
  ghost predicate NonIncreasing(s: seq<Reading>) {
    forall i, j :: 0 <= i < j < |s| ==> s[i].createdAt >= s[j].createdAt
  }
}
