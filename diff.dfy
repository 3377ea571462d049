/** The diff engine `logDiff`: it compares the previous and the freshly
    fetched snapshot position by position and emits, in this order, one
    ranking event, a "solved" notification per problem that became
    accepted (or a marker that there was none), and an "added"
    notification per appended problem.

    `Run` is the specification: it says what `logDiff` does on EVERY pair
    of snapshots, including the two pairs on which the code does not
    finish (an index out of range, an endless loop). `LogDiff` is the
    loop itself, proved against `Run` on the pairs where it finishes. */
module Diff {
  import opened Snapshots

  /** The direction word of the ranking log line: "进步" or "后退". */
  datatype Verb = Improved | Worsened

  datatype Event =
    | RankChanged(ranking: int, verb: Verb, delta: int)  // the ranking log line
    | Solved(problem: Problem)                            // dida("re", problem)
    | NoNewFinished                                       // the "no newly solved problem" log line
    | Added(problem: Problem)                             // dida("do", problem)

  /** What a call of logDiff amounts to: the events it emits, and whether it
      returns, panics reading the new list at `index`, or spins for ever
      at `index`. */
  datatype Outcome =
    | Completed(events: seq<Event>)
    | IndexOutOfRange(events: seq<Event>, index: nat)
    | Spins(events: seq<Event>, index: nat)

  function Abs(x: int): nat { if x < 0 then -x else x }

  /** The ranking event: a lower ranking is better; a tie is reported as an
      improvement by zero places. */
  function RankEvent(oldRanking: int, newRanking: int): (e: Event)
    ensures e.RankChanged? && e.ranking == newRanking
    ensures e.delta >= 0 && e.delta == Abs(oldRanking - newRanking)
    ensures e.verb == Worsened <==> newRanking > oldRanking
    ensures oldRanking == newRanking ==> e.verb == Improved && e.delta == 0
  {
    if newRanking > oldRanking then RankChanged(newRanking, Worsened, newRanking - oldRanking)
    else RankChanged(newRanking, Improved, oldRanking - newRanking)
  }

  /** The one-way transition that triggers a "solved" notification. */
  predicate NewlySolved(o: Problem, n: Problem) { !o.isAccepted && n.isAccepted }

  /** The solved events of the first `k` positions, in position order. */
  function SolvedUpTo(os: seq<Problem>, ns: seq<Problem>, k: nat): (r: seq<Event>)
    requires k <= |os| && k <= |ns|
    ensures |r| <= k
    ensures forall e :: e in r ==> e.Solved?
  {
    if k == 0 then []
    else SolvedUpTo(os, ns, k - 1) + (if NewlySolved(os[k - 1], ns[k - 1]) then [Solved(ns[k - 1])] else [])
  }

  /** The positions below `k` whose problem became accepted, ascending. */
  ghost function SolvedIndices(os: seq<Problem>, ns: seq<Problem>, k: nat): (r: seq<nat>)
    requires k <= |os| && k <= |ns|
    ensures forall j :: 0 <= j < |r| ==> r[j] < k
  {
    if k == 0 then []
    else SolvedIndices(os, ns, k - 1) + (if NewlySolved(os[k - 1], ns[k - 1]) then [k - 1] else [])
  }

  /** The marker is logged only when no solved event was emitted. */
  function Marker(solved: seq<Event>): (r: seq<Event>)
    ensures |r| <= 1 && forall e :: e in r ==> e == NoNewFinished
    ensures NoNewFinished in r <==> solved == []
  {
    if solved == [] then [NoNewFinished] else []
  }

  /** The added events for the positions `from` up to `k`, in position order. */
  function AddedFrom(ns: seq<Problem>, from: nat, k: nat): (r: seq<Event>)
    requires from <= k <= |ns|
    ensures |r| == k - from
    ensures forall e :: e in r ==> e.Added?
    decreases k
  {
    if k == from then [] else AddedFrom(ns, from, k - 1) + [Added(ns[k - 1])]
  }

  /** The first position at or after `from` whose problem is not available,
      or `|ns|` when there is none. */
  function FirstUnavailable(ns: seq<Problem>, from: nat): (k: nat)
    requires from <= |ns|
    ensures from <= k <= |ns|
    ensures forall i :: from <= i < k ==> ns[i].available
    ensures k < |ns| ==> !ns[k].available
    decreases |ns| - from
  {
    if from == |ns| || !ns[from].available then from else FirstUnavailable(ns, from + 1)
  }

  /** Everything logDiff does with the pair (prev, next). The first loop
      reads `next.problems[i]` for every `i < |prev.problems|`, so a shorter
      new list panics at `|next.problems|` after the solved events of the
      positions before it. The second loop only advances past an available
      problem, so it spins at the first appended problem that is not. */
  function Run(prev: Snapshot, next: Snapshot): (r: Outcome)
    ensures |r.events| >= 1 && r.events[0] == RankEvent(prev.ranking, next.ranking)
    ensures r.IndexOutOfRange? <==> |next.problems| < |prev.problems|
    ensures r.IndexOutOfRange? ==> r.index == |next.problems|
    ensures r.Spins? ==>
              |prev.problems| <= r.index < |next.problems| && !next.problems[r.index].available
  {
    var rank := [RankEvent(prev.ranking, next.ranking)];
    if |next.problems| < |prev.problems| then
      IndexOutOfRange(rank + SolvedUpTo(prev.problems, next.problems, |next.problems|), |next.problems|)
    else
      var solved := SolvedUpTo(prev.problems, next.problems, |prev.problems|);
      var k := FirstUnavailable(next.problems, |prev.problems|);
      var events := rank + solved + Marker(solved) + AddedFrom(next.problems, |prev.problems|, k);
      if k < |next.problems| then Spins(events, k) else Completed(events)
  }

  /** The pairs on which logDiff returns: the new list is at least as long
      as the old one and every appended problem is available. */
  predicate Safe(prev: Snapshot, next: Snapshot)
  {
    |prev.problems| <= |next.problems| &&
    forall i :: |prev.problems| <= i < |next.problems| ==> next.problems[i].available
  }

  /** logDiff, with the events it logs and sends returned in order. */
  method LogDiff(prev: Snapshot, next: Snapshot) returns (events: seq<Event>)
    requires Safe(prev, next)
    ensures Run(prev, next) == Completed(events)
  {
    var verb, delta := Improved, prev.ranking - next.ranking;
    if next.ranking > prev.ranking {
      verb, delta := Worsened, next.ranking - prev.ranking;
    }
    events := [RankChanged(next.ranking, verb, delta)];
    ghost var rank := events;

    var lenOld, lenNew := |prev.problems|, |next.problems|;
    var hasNewFinished := false;

    var i := 0;
    while i < lenOld
      invariant 0 <= i <= lenOld
      invariant events == rank + SolvedUpTo(prev.problems, next.problems, i)
      invariant hasNewFinished <==> SolvedUpTo(prev.problems, next.problems, i) != []
    {
      var o, n := prev.problems[i], next.problems[i];
      if !o.isAccepted && n.isAccepted {
        events := events + [Solved(n)];
        hasNewFinished := true;
      }
      i := i + 1;
    }
    ghost var solved := SolvedUpTo(prev.problems, next.problems, lenOld);

    if !hasNewFinished {
      events := events + [NoNewFinished];
    }

    while i < lenNew
      invariant lenOld <= i <= lenNew
      invariant events == rank + solved + Marker(solved) + AddedFrom(next.problems, lenOld, i)
      decreases lenNew - i
    {
      if next.problems[i].available {
        events := events + [Added(next.problems[i])];
        i := i + 1;
      }
    }
    assert rank == [RankEvent(prev.ranking, next.ranking)];
    SafeDiffEvents(prev, next);
  }

  // ---------------------------------------------------------------------
  // Properties of Run

  /** The solved events of the first `k` positions are, in order, the new
      problems at the positions `SolvedIndices` lists. */
  lemma {:induction false} SolvedEventsAtIndices(os: seq<Problem>, ns: seq<Problem>, k: nat)
    requires k <= |os| && k <= |ns|
    ensures |SolvedUpTo(os, ns, k)| == |SolvedIndices(os, ns, k)|
    ensures forall j :: 0 <= j < |SolvedIndices(os, ns, k)| ==>
              SolvedUpTo(os, ns, k)[j] == Solved(ns[SolvedIndices(os, ns, k)[j]])
  {
    if k > 0 {
      SolvedEventsAtIndices(os, ns, k - 1);
    }
  }

  /** Solved events are emitted exactly for the positions `i < k` whose
      problem went from not accepted to accepted, and in ascending position
      order. A problem that stays the same or goes from accepted to not
      accepted emits nothing. */
  lemma {:induction false} SolvedIndicesExactly(os: seq<Problem>, ns: seq<Problem>, k: nat)
    requires k <= |os| && k <= |ns|
    ensures forall i :: 0 <= i < k ==> (i in SolvedIndices(os, ns, k) <==> NewlySolved(os[i], ns[i]))
    ensures forall a, b :: 0 <= a < b < |SolvedIndices(os, ns, k)| ==>
              SolvedIndices(os, ns, k)[a] < SolvedIndices(os, ns, k)[b]
  {
    if k > 0 {
      SolvedIndicesExactly(os, ns, k - 1);
    }
  }

  /** The events of positions `from .. k-1` are `Added(ns[from])`, ...,
      `Added(ns[k-1])`, in that order. */
  lemma {:induction false} AddedEventsExactly(ns: seq<Problem>, from: nat, k: nat)
    requires from <= k <= |ns|
    ensures forall j :: 0 <= j < k - from ==> AddedFrom(ns, from, k)[j] == Added(ns[from + j])
    decreases k
  {
    if k > from {
      AddedEventsExactly(ns, from, k - 1);
    }
  }

  /** logDiff returns exactly on the safe pairs; otherwise it panics when
      the new list is shorter, and spins when an appended problem is not
      available, at the first such position. */
  lemma CompletesExactlyWhenSafe(prev: Snapshot, next: Snapshot)
    ensures Run(prev, next).Completed? <==> Safe(prev, next)
    ensures Run(prev, next).IndexOutOfRange? <==> |next.problems| < |prev.problems|
    ensures Run(prev, next).IndexOutOfRange? ==>
              Run(prev, next).index == |next.problems| < |prev.problems|
    ensures Run(prev, next).Spins? ==>
              var k := Run(prev, next).index;
              |prev.problems| <= k < |next.problems| && !next.problems[k].available &&
              forall i :: |prev.problems| <= i < k ==> next.problems[i].available
  {
  }

  /** On a safe pair logDiff completes, and its events are the ranking
      event, the solved events, the marker when there were none, then the
      added events of every appended position. */
  lemma SafeDiffEvents(prev: Snapshot, next: Snapshot)
    requires Safe(prev, next)
    ensures var solved := SolvedUpTo(prev.problems, next.problems, |prev.problems|);
            Run(prev, next) ==
              Completed([RankEvent(prev.ranking, next.ranking)] + solved + Marker(solved) +
                        AddedFrom(next.problems, |prev.problems|, |next.problems|))
  {
  }

  /** Added events cover exactly the appended positions len(old) ..
      len(new)-1, in ascending order, each carrying the new list's problem. */
  lemma AppendedEventsExactly(prev: Snapshot, next: Snapshot)
    requires Safe(prev, next)
    ensures var events := Run(prev, next).events;
            |next.problems| - |prev.problems| <= |events| &&
            forall i :: |prev.problems| <= i < |next.problems| ==>
              events[|events| - |next.problems| + i] == Added(next.problems[i])
  {
    SafeDiffEvents(prev, next);
    var solved := SolvedUpTo(prev.problems, next.problems, |prev.problems|);
    var head := [RankEvent(prev.ranking, next.ranking)] + solved + Marker(solved);
    var added := AddedFrom(next.problems, |prev.problems|, |next.problems|);
    assert (head + added)[|head|..] == added;
    AddedSuffix(Run(prev, next).events, next.problems, |prev.problems|);
  }

  lemma AddedSuffix(events: seq<Event>, ns: seq<Problem>, from: nat)
    requires from <= |ns| && |ns| - from <= |events|
    requires events[|events| - (|ns| - from)..] == AddedFrom(ns, from, |ns|)
    ensures forall i :: from <= i < |ns| ==> events[|events| - |ns| + i] == Added(ns[i])
  {
    var added := AddedFrom(ns, from, |ns|);
    AddedEventsExactly(ns, from, |ns|);
    forall i | from <= i < |ns|
      ensures events[|events| - |ns| + i] == Added(ns[i])
    {
      assert events[|events| - |ns| + i] == added[i - from];
    }
  }

  /** When the new list is at least as long as the old one, the "no newly
      solved problem" marker is emitted if and only if no position went from
      not accepted to accepted. When it is shorter, logDiff panics in its
      first loop and never emits the marker. */
  lemma MarkerExactlyWhenNoneSolved(prev: Snapshot, next: Snapshot)
    ensures |prev.problems| <= |next.problems| ==>
              (NoNewFinished in Run(prev, next).events <==>
               forall i :: 0 <= i < |prev.problems| ==> !NewlySolved(prev.problems[i], next.problems[i]))
    ensures |next.problems| < |prev.problems| ==> NoNewFinished !in Run(prev, next).events
  {
    if |next.problems| < |prev.problems| {
      var solved := SolvedUpTo(prev.problems, next.problems, |next.problems|);
      assert Run(prev, next).events == [RankEvent(prev.ranking, next.ranking)] + solved;
      assert NoNewFinished !in solved;
    } else {
      var solved := SolvedUpTo(prev.problems, next.problems, |prev.problems|);
      var k := FirstUnavailable(next.problems, |prev.problems|);
      var added := AddedFrom(next.problems, |prev.problems|, k);
      var events := [RankEvent(prev.ranking, next.ranking)] + solved + Marker(solved) + added;
      assert Run(prev, next).events == events;
      NoneSolvedExactly(prev.problems, next.problems, |prev.problems|);
      if solved == [] {
        assert events[1] == NoNewFinished;
      } else {
        assert NoNewFinished !in solved && NoNewFinished !in added;
        assert NoNewFinished !in events;
      }
    }
  }

  /** Whenever logDiff gets past its first loop, the events right after the
      ranking event are the solved events: one `Solved(new.Problems[i])` for
      each position i that went from not accepted to accepted, in ascending
      order, and the event after them is not a solved event. */
  lemma SolvedEventsOfRun(prev: Snapshot, next: Snapshot)
    requires |prev.problems| <= |next.problems|
    ensures var idx := SolvedIndices(prev.problems, next.problems, |prev.problems|);
            var events := Run(prev, next).events;
            1 + |idx| <= |events| &&
            (forall j :: 0 <= j < |idx| ==> events[1 + j] == Solved(next.problems[idx[j]])) &&
            (1 + |idx| == |events| || !events[1 + |idx|].Solved?) &&
            (forall i :: 0 <= i < |prev.problems| ==>
               (i in idx <==> NewlySolved(prev.problems[i], next.problems[i]))) &&
            (forall a, b :: 0 <= a < b < |idx| ==> idx[a] < idx[b])
  {
    var ps, qs := prev.problems, next.problems;
    var solved := SolvedUpTo(ps, qs, |ps|);
    var rest := Marker(solved) + AddedFrom(qs, |ps|, FirstUnavailable(qs, |ps|));
    var events := [RankEvent(prev.ranking, next.ranking)] + solved + rest;
    assert Run(prev, next).events == events;
    SolvedEventsAtIndices(ps, qs, |ps|);
    SolvedIndicesExactly(ps, qs, |ps|);
    var idx := SolvedIndices(ps, qs, |ps|);
    forall j | 0 <= j < |idx| ensures events[1 + j] == Solved(qs[idx[j]]) {
      assert events[1 + j] == solved[j];
    }
    if 1 + |idx| < |events| {
      assert events[1 + |idx|] == rest[0];
      assert rest[0] in rest;
    }
  }

  lemma {:induction false} NoneSolvedExactly(os: seq<Problem>, ns: seq<Problem>, k: nat)
    requires k <= |os| && k <= |ns|
    ensures SolvedUpTo(os, ns, k) == [] <==> forall i :: 0 <= i < k ==> !NewlySolved(os[i], ns[i])
  {
    if k > 0 {
      NoneSolvedExactly(os, ns, k - 1);
    }
  }

  /** The phase of an event: ranking first, then solved events or the
      marker, then added events. */
  function Phase(e: Event): nat
  {
    match e
    case RankChanged(_, _, _) => 0
    case Solved(_) => 1
    case NoNewFinished => 1
    case Added(_) => 2
  }

  /** Event order is fixed: exactly one ranking event, in front, and no
      solved event or marker after an added event. */
  lemma EventOrder(prev: Snapshot, next: Snapshot)
    ensures var events := Run(prev, next).events;
            |events| > 0 && events[0] == RankEvent(prev.ranking, next.ranking) &&
            (forall j :: 0 < j < |events| ==> !events[j].RankChanged?) &&
            forall a, b :: 0 <= a < b < |events| ==> Phase(events[a]) <= Phase(events[b])
  {
    var ps, qs := prev.problems, next.problems;
    var rank := [RankEvent(prev.ranking, next.ranking)];
    if |qs| < |ps| {
      var solved := SolvedUpTo(ps, qs, |qs|);
      var events := rank + solved;
      assert Run(prev, next).events == events;
      forall j | 1 <= j < |events| ensures Phase(events[j]) == 1 {
        assert events[j] in solved;
      }
    } else {
      var solved := SolvedUpTo(ps, qs, |ps|);
      var added := AddedFrom(qs, |ps|, FirstUnavailable(qs, |ps|));
      var middle := solved + Marker(solved);
      var events := rank + middle + added;
      assert Run(prev, next).events == events;
      forall j | 1 <= j < 1 + |middle| ensures Phase(events[j]) == 1 {
        assert events[j] == middle[j - 1];
        assert middle[j - 1] in solved || middle[j - 1] == NoNewFinished;
      }
      forall j | 1 + |middle| <= j < |events| ensures Phase(events[j]) == 2 {
        assert events[j] in added;
      }
    }
  }

  /** Diffing a snapshot against one with the very same problem list (a
      refresh in which nothing was solved or published) yields only the
      ranking event and the marker. */
  lemma {:induction false} SameProblemsOnlyRankAndMarker(prev: Snapshot, next: Snapshot)
    requires next.problems == prev.problems
    ensures Run(prev, next) == Completed([RankEvent(prev.ranking, next.ranking), NoNewFinished])
  {
    NothingSolvedAgainstItself(prev.problems, |prev.problems|);
  }

  lemma {:induction false} NothingSolvedAgainstItself(ps: seq<Problem>, k: nat)
    requires k <= |ps|
    ensures SolvedUpTo(ps, ps, k) == []
  {
    if k > 0 {
      NothingSolvedAgainstItself(ps, k - 1);
    }
  }
}
