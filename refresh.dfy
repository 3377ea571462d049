/** The refresh controller: the `leetcode` object, the TTL gate of its
    `refresh` method, and `newLeetCode`, which loads the stored snapshot and
    refreshes it. The network fetch and the file are objects whose state the
    model records: the platform's next answer and the number of fetches, the
    file's content and the number of writes. */
module Refresh {
  import opened Snapshots
  import opened Diff

  /** One minute in nanoseconds, the unit of a Go duration. */
  const Minute: int := 60_000_000_000
  /** A snapshot younger than this is not refreshed. */
  const Ttl: int := 7 * Minute

  /** The gate of refresh: less than seven minutes since the last update. */
  predicate RecentlyUpdated(updated: int, now: int): (r: bool)
    ensures r <==> now < updated + Ttl
    ensures now <= updated ==> r
  {
    now - updated < Ttl
  }

  /** The remote platform. `pending` is the snapshot the next fetch returns. */
  class Remote {
    var pending: Snapshot
    var fetches: nat

    constructor (pending: Snapshot)
      ensures this.pending == pending && fetches == 0
    {
      this.pending := pending;
      fetches := 0;
    }

    /** getLeetCode: a new object holding the platform's current snapshot. */
    method Fetch() returns (lc: LeetCode)
      modifies this
      ensures fresh(lc) && lc.View() == pending
      ensures pending == old(pending) && fetches == old(fetches) + 1
    {
      lc := new LeetCode(pending);
      fetches := fetches + 1;
    }
  }

  /** The file leetcode.json. `file` is None when it is missing or cannot be
      decoded. */
  class Store {
    var file: Option<Snapshot>
    var writes: nat

    constructor (file: Option<Snapshot>)
      ensures this.file == file && writes == 0
    {
      this.file := file;
      writes := 0;
    }

    /** save: the file now holds the object's snapshot. */
    method Save(lc: LeetCode)
      modifies this
      ensures file == Some(lc.View()) && writes == old(writes) + 1
    {
      file := Some(lc.View());
      writes := writes + 1;
    }
  }

  /** The `leetcode` struct, handled by pointer in Go. */
  class LeetCode {
    var username: string
    var problems: seq<Problem>
    var ranking: int
    var updated: int

    function View(): Snapshot
      reads this
    {
      Snapshot(username, problems, ranking, updated)
    }

    constructor (s: Snapshot)
      ensures View() == s
    {
      username, problems, ranking, updated := s.username, s.problems, s.ranking, s.updated;
    }

    /** refresh. Within the TTL nothing is fetched, emitted or saved.
        Otherwise it fetches once, emits the diff of (this, fetched), and
        saves the fetched snapshot; rebinding `lc` to the fetched object is
        local, so this object keeps its old fields. The caller must not hand
        it a platform answer on which logDiff would panic or spin. */
    method Refresh(now: int, remote: Remote, store: Store) returns (events: seq<Event>)
      requires !RecentlyUpdated(updated, now) ==> Safe(View(), remote.pending)
      modifies remote, store
      ensures unchanged(this)
      ensures RecentlyUpdated(updated, now) ==>
                events == [] && unchanged(remote) && unchanged(store)
      ensures !RecentlyUpdated(updated, now) ==>
                remote.pending == old(remote.pending) &&
                remote.fetches == old(remote.fetches) + 1 &&
                Run(View(), remote.pending) == Completed(events) &&
                store.file == Some(remote.pending) && store.writes == old(store.writes) + 1
    {
      var lc := this;
      if RecentlyUpdated(lc.updated, now) {
        return [];
      }
      var newLC := remote.Fetch();
      events := LogDiff(lc.View(), newLC.View());
      lc := newLC;
      store.Save(lc);
    }
  }

  /** newLeetCode: without a readable file it returns a freshly fetched
      object and refreshes nothing; otherwise it refreshes the loaded object
      and returns that object, not the fetched one, even when the file now
      holds a newer snapshot. */
  method NewLeetCode(now: int, remote: Remote, store: Store) returns (lc: LeetCode, events: seq<Event>)
    requires store.file.Some? && !RecentlyUpdated(store.file.value.updated, now) ==>
               Safe(store.file.value, remote.pending)
    modifies remote, store
    ensures fresh(lc) && remote.pending == old(remote.pending)
    ensures old(store.file).None? ==>
              lc.View() == remote.pending && events == [] &&
              remote.fetches == old(remote.fetches) + 1 && unchanged(store)
    ensures old(store.file).Some? ==> lc.View() == old(store.file).value
    ensures old(store.file).Some? && RecentlyUpdated(old(store.file).value.updated, now) ==>
              events == [] && unchanged(remote) && unchanged(store)
    ensures old(store.file).Some? && !RecentlyUpdated(old(store.file).value.updated, now) ==>
              Run(lc.View(), remote.pending) == Completed(events) &&
              remote.fetches == old(remote.fetches) + 1 &&
              store.file == Some(remote.pending) && store.writes == old(store.writes) + 1
  {
    match store.file {
      case None =>
        lc := remote.Fetch();
        events := [];
      case Some(s) =>
        lc := new LeetCode(s);
        events := lc.Refresh(now, remote, store);
    }
  }

  /** Running the tool a second time within the TTL of a refresh that
      stored a snapshot stamped with its fetch time emits nothing, fetches
      nothing and writes nothing. */
  method SecondRunWithinTtlIsSilent(now1: int, now2: int, remote: Remote, store: Store)
      returns (first: seq<Event>, second: seq<Event>)
    requires store.file.Some? && !RecentlyUpdated(store.file.value.updated, now1)
    requires Safe(store.file.value, remote.pending)
    requires remote.pending.updated == now1 && now1 <= now2 < now1 + Ttl
    modifies remote, store
    ensures remote.pending == old(remote.pending)
    ensures Run(old(store.file).value, old(remote.pending)) == Completed(first)
    ensures second == [] && store.file == Some(old(remote.pending))
    ensures remote.fetches == old(remote.fetches) + 1 && store.writes == old(store.writes) + 1
  {
    var lc1, lc2;
    lc1, first := NewLeetCode(now1, remote, store);
    lc2, second := NewLeetCode(now2, remote, store);
  }

  /** Because refresh only rebinds a local, the object it was called on
      stays stale: refreshing it again, at any later time, fetches again and
      diffs the new answer against the OLD snapshot once more; when the
      platform's answer has not changed, the same events are sent twice. */
  method RefreshSameObjectTwice(lc: LeetCode, now1: int, now2: int, answer2: Snapshot, remote: Remote, store: Store)
      returns (first: seq<Event>, second: seq<Event>)
    requires !RecentlyUpdated(lc.updated, now1) && now1 <= now2
    requires Safe(lc.View(), remote.pending) && Safe(lc.View(), answer2)
    modifies remote, store
    ensures unchanged(lc)
    ensures Run(lc.View(), old(remote.pending)) == Completed(first)
    ensures Run(lc.View(), answer2) == Completed(second)
    ensures answer2 == old(remote.pending) ==> second == first
    ensures remote.pending == answer2 && store.file == Some(answer2)
    ensures remote.fetches == old(remote.fetches) + 2 && store.writes == old(store.writes) + 2
  {
    first := lc.Refresh(now1, remote, store);
    remote.pending := answer2;
    second := lc.Refresh(now2, remote, store);
  }
}
