/** The values the refresh engine works on: one practice problem and one
    snapshot of the user's progress, as stored in leetcode.json. */
module Snapshots {

  datatype Option<+T> = None | Some(value: T)

  /** One problem of the problem list. `available` stands for the result of
      the problem's `isAvailble()` check. */
  datatype Problem = Problem(id: int, title: string, isAccepted: bool, available: bool)

  /** The `leetcode` record. `updated` is the time of the fetch that produced
      it, in nanoseconds on the same clock as the `now` given to Refresh.
      The per-difficulty `record` counts are not part of this model. */
  datatype Snapshot = Snapshot(username: string, problems: seq<Problem>, ranking: int, updated: int)
}
