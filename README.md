# LeetCode progress refresh: the TTL gate and the diff engine

This project models the refresh/diff engine of `Helper/leetcode.go` in the
LeetCode-in-Go helper tool. The tool keeps a snapshot of a user's LeetCode
progress in `leetcode.json`. It holds the user name, the per-difficulty
`Record` counts (not modelled, since neither the diff nor the gate reads
them), the ordered problem list, the global ranking and `Updated`, the time
of the fetch that produced it. Each problem has an id, a title and an
accepted flag.
When the stored snapshot is at least seven minutes old, `refresh` fetches a
new one and runs `logDiff` on the old and the new snapshot. `logDiff` logs the
ranking movement. It sends a "re" notification to the task tracker (`dida`)
for every problem that became accepted, or logs that there was none. It sends
a "do" notification for every problem appended to the list (each must be
available; an unavailable one makes the loop spin, see below). Then
`refresh` saves the new snapshot.

- `snapshots.dfy` (module `Snapshots`): the `Problem` and `Snapshot` values.
  `Problem.available` stands for the problem's availability check.
- `diff.dfy` (module `Diff`): `logDiff` as the method `LogDiff`, which returns
  the events it logs and sends, in order. `Run` specifies the method. It is a
  total function that also describes the two inputs on which the code does
  not finish:
  - `IndexOutOfRange`: the new list is shorter than the old one. The first
    loop then reads `new.Problems[i]` past its end and panics.
  - `Spins`: an appended problem is not available. The second loop only
    advances `i` inside the availability branch, so it never ends.

  `LogDiff` requires `Safe`, the exact condition under which `Run`
  completes (lemma `CompletesExactlyWhenSafe`). Its `ensures` fixes the event
  sequence as a function of the two snapshots, so the same inputs always give
  the same events.
- `refresh.dfy` (module `Refresh`): the `leetcode` struct as the class
  `LeetCode`. The platform (`Remote`: its next answer and a fetch counter) and
  the file (`Store`: its content and a write counter) are objects too.
  `LeetCode.Refresh` is the TTL gate with fetch, diff and save. `NewLeetCode`
  loads, refreshes and returns the loaded object. Time is an integer number
  of nanoseconds, like a Go duration, and the current time is a parameter.

Three behaviours of the code are kept as written:
- A tie in ranking is reported as "进步" (improved) by 0 (lines 86-89).
- A new list shorter than the old one panics at line 99, which reads
  `new.Problems[i]` for every `i < len(old.Problems)`.
- An appended problem that is not available makes the second loop spin,
  because `i++` sits inside the `if` (line 119).

## Model

| member | source | states |
|---|---|---|
| `Diff.RankEvent` | Helper/leetcode.go:84-91 | the ranking event carries the new ranking and a delta that is never negative and equals the absolute ranking difference; the verb is "后退" (Worsened) exactly when the new ranking is larger, and a tie is "进步" (Improved) by 0 |
| `Diff.SolvedUpTo` | Helper/leetcode.go:97-108 | the first loop over k positions emits at most k events, all of them solved events (which positions, and in what order, is stated by `Diff.SolvedEventsAtIndices` and `Diff.SolvedIndicesExactly`) |
| `Diff.AddedFrom` | Helper/leetcode.go:115-121 | the second loop emits exactly one event per position it passes, and only added events |
| `Diff.FirstUnavailable` | Helper/leetcode.go:115-121 | the position where the second loop stops advancing: every problem before it is available, and the problem at it is not |
| `Diff.Marker` | Helper/leetcode.go:110-112 | the "no newly solved problem" marker is at most one event, and it is emitted exactly when no solved event was |
| `Diff.Run` | Helper/leetcode.go:83-122 | the events logDiff emits on any pair, starting with the ranking event, and whether it returns, panics reading the new list at index len(new) (exactly when the new list is shorter), or spins at an appended problem that is not available |
| `Diff.LogDiff` | Helper/leetcode.go:83-122 | on a safe pair (new list at least as long, every appended problem available) the two loops terminate and the events emitted are exactly those `Run` describes |
| `Diff.SolvedEventsAtIndices` | Helper/leetcode.go:97-108 | the solved events are, one for one and in order, the new list's problems at the positions listed by `SolvedIndices` |
| `Diff.SolvedIndicesExactly` | Helper/leetcode.go:97-108 | a position i below the old length is listed exactly when the old problem there is not accepted and the new one is, and the positions ascend; so a problem that stays the same or loses its accepted flag emits nothing |
| `Diff.NoneSolvedExactly` | Helper/leetcode.go:98-105 | no solved event is emitted exactly when no position went from not accepted to accepted |
| `Diff.MarkerExactlyWhenNoneSolved` | Helper/leetcode.go:95-112 | when the new list is at least as long as the old one, the "no newly solved problem" marker is emitted if and only if no position went from not accepted to accepted; when it is shorter, logDiff panics at line 99 and the marker is never emitted |
| `Diff.SolvedEventsOfRun` | Helper/leetcode.go:97-108 | when the new list is at least as long as the old one, the events right after the ranking event are `Solved(new.Problems[i])` for exactly the positions i that went from not accepted to accepted, in ascending order, and no further solved event follows them |
| `Diff.AddedEventsExactly` | Helper/leetcode.go:115-121 | the events of the second loop for positions from..k-1 are the added events of those positions, in ascending order, each carrying the new list's problem |
| `Diff.CompletesExactlyWhenSafe` | Helper/leetcode.go:94-121 | logDiff returns if and only if the pair is safe; it reads out of range exactly when the new list is shorter, at index len(new); otherwise it spins at the first appended problem that is not available |
| `Diff.SafeDiffEvents` | Helper/leetcode.go:83-121 | on a safe pair logDiff completes, and its events are the ranking event, the solved events, the marker if there were none, then the added events of all positions len(old)..len(new)-1 |
| `Diff.AppendedEventsExactly` | Helper/leetcode.go:114-121 | on a safe pair the last len(new)-len(old) events are the added events of positions len(old)..len(new)-1, in ascending order, each carrying `new.Problems[i]` |
| `Diff.EventOrder` | Helper/leetcode.go:83-121 | on every input the ranking event comes first and only once, and no solved event or marker comes after an added event |
| `Diff.NothingSolvedAgainstItself` | Helper/leetcode.go:101 | an unchanged problem list produces no solved event |
| `Diff.SameProblemsOnlyRankAndMarker` | Helper/leetcode.go:83-121 | diffing against a snapshot with the same problem list completes with just the ranking event and the marker |
| `Refresh.Remote.Fetch` | Helper/leetcode.go:76 | each fetch returns a new object holding the platform's current snapshot and counts one fetch |
| `Refresh.Store.Save` | Helper/leetcode.go:56-66 | after a save the file holds the object's snapshot, and one more write is counted |
| `Refresh.RecentlyUpdated` | Helper/leetcode.go:71 | the snapshot is fresh exactly when the current time is before `Updated` plus seven minutes; a timestamp at or after the current time always counts as fresh |
| `Refresh.LeetCode.Refresh` | Helper/leetcode.go:68-81 | under seven minutes since `Updated`: no fetch, no event, no save; otherwise one fetch, the events of diffing (receiver, fetched), and the fetched snapshot saved; the receiver's fields never change |
| `Refresh.NewLeetCode` | Helper/leetcode.go:27-40 | without a readable file it returns the fetched object and refreshes nothing; otherwise it refreshes and returns the loaded object, whose snapshot is the old one even when the file now holds the fetched one |
| `Refresh.SecondRunWithinTtlIsSilent` | Helper/leetcode.go:71-80 | a second run within seven minutes of a refresh, reloading from the file, fetches, emits and writes nothing, provided the fetched snapshot is stamped with its fetch time; the platform's answer is left unchanged and the file ends holding it |
| `Refresh.RefreshSameObjectTwice` | Helper/leetcode.go:76-80 | because line 78 only rebinds a local, refreshing the same object twice fetches and saves twice and diffs each answer against the same old snapshot; when the platform's answer has not changed, the same events are sent both times; the platform keeps the second answer and the file ends holding it |

## Left out

- `readLeetCode` (Helper/leetcode.go:42-54): file reading and JSON decoding. The file is modelled as `Option<Snapshot>`, where `None` means missing or undecodable.
- `Refresh.Store.Save`: does not model JSON encoding or the `log.Fatal` exits when encoding or writing fails. A save always succeeds.
- `getLeetCode` is not part of this model. At both of its call sites (line 33 in `newLeetCode`, line 76 in `refresh`) the fetch returns the platform's snapshot as given and writes nothing, so any saving or other effect inside `getLeetCode` is not captured.
- `dida`, the task-tracker call, is not part of this model. Its calls are the `Solved` ("re") and `Added` ("do") events.
- `isAvailble` and the `record`/`problems` types are not part of this model. Availability is the abstract field `Problem.available`, and the per-difficulty `Record` counts are omitted because the diff and the gate never read them.
- Log message text is not modelled. Only the event kinds, the verb, the delta and the ranking are kept.
- `time.Time` and `time.Since` are modelled as integer nanoseconds. The current time is a parameter, and the saturation of Go durations is not modelled.
- `Diff.RankEvent`: does not model 64-bit wrap-around of the ranking subtraction, because rankings are far from the `int` range.
- `Refresh.LeetCode.Refresh`: requires that a stale refresh gets a safe platform answer. On the other answers, the outcome of the diff is described by `Diff.Run`: a panic, or a loop that never ends and never saves.
- `Refresh.NewLeetCode`: requires that, when the stored snapshot is stale, the platform's answer is safe for the diff. newLeetCode itself accepts any answer and then panics or spins inside logDiff; `Diff.Run` describes that outcome, but the method does not.
- Concurrency and logging order relative to other processes are not modelled. The tool is single-threaded.
