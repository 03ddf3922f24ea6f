/** What a purge does: which files it removes, in which order, why it skips the others, and when it does
    nothing. */
module FileCachePurge {
  import opened Options
  import opened FileCache
  import opened FileCacheInvariant
  import opened FileCacheSteps

  // ---- Where it stops ----

  /** Purge went on only while it had not removed enough. */
  ghost predicate WentOnWhileNeeded(c: Config, items: seq<Item>, outcomes: seq<Outcome>) {
    |outcomes| <= |items| && forall k :: 0 <= k < |outcomes| ==> RemovedBytes(items, outcomes[..k]) <= c.purgeSize
  }

  ghost predicate PurgeStops(c: Config, s: State) {
    s.lock.In? ==>
      match s.lock.pc
      case Looping(_, items, outcomes, _) => WentOnWhileNeeded(c, items, outcomes)
      case Taking(_, items, outcomes, removed, _) => WentOnWhileNeeded(c, items, outcomes) && removed <= c.purgeSize
      case Purged(items, outcomes, removed) =>
        WentOnWhileNeeded(c, items, outcomes) && (removed > c.purgeSize || |outcomes| == |items|)
      case _ => true
  }

  lemma WentOnOnce(c: Config, items: seq<Item>, outcomes: seq<Outcome>, o: Outcome)
    requires WentOnWhileNeeded(c, items, outcomes) && |outcomes| < |items|
    requires RemovedBytes(items, outcomes) <= c.purgeSize
    ensures WentOnWhileNeeded(c, items, outcomes + [o])
  {
    forall k | 0 <= k < |outcomes + [o]|
      ensures RemovedBytes(items, (outcomes + [o])[..k]) <= c.purgeSize
    {
      assert (outcomes + [o])[..k] == if k < |outcomes| then outcomes[..k] else outcomes;
    }
  }

  lemma PurgeStopsKeeps(c: Config, s: State, s': State, p: Proc, step: Step)
    requires Inv(c, s) && PurgeStops(c, s) && NextStep(c, s, s', p, step)
    ensures PurgeStops(c, s')
  {
    if step.PurgeSkip? || step.PurgeRemove? || step.PurgeRemoveFails? {
      VisitedOne(c, s, s', p, step);
    } else if s'.lock.In? && s'.lock.pc.Purged? && step.PurgeFinish? {
    }
  }

  lemma VisitedOne(c: Config, s: State, s': State, p: Proc, step: Step)
    requires Inv(c, s) && PurgeStops(c, s) && NextStep(c, s, s', p, step)
    requires step.PurgeSkip? || step.PurgeRemove? || step.PurgeRemoveFails?
    ensures PurgeStops(c, s')
  {
    var o := if step.PurgeSkip? then Locked else if step.PurgeRemove? then Removed else Undeletable;
    WentOnOnce(c, s.lock.pc.items, s.lock.pc.outcomes, o);
  }

  lemma {:induction false} ReachablePurgeStops(c: Config, run: seq<State>, i: nat)
    requires c.capacity < TWO_64 && IsRun(c, run) && i < |run|
    ensures PurgeStops(c, run[i])
  {
    if i > 0 {
      ReachablePurgeStops(c, run, i - 1);
      ReachableInv(c, run, i - 1);
      assert Next(c, run[i - 1], run[i - 1 + 1]);
      var p, step :| NextStep(c, run[i - 1], run[i], p, step);
      PurgeStopsKeeps(c, run[i - 1], run[i], p, step);
    }
  }

  // ---- Why an entry is skipped ----

  /** The entries visited so far, if the process inside the cache lock is purging. */
  ghost predicate Visits(s: State, items: seq<Item>, outcomes: seq<Outcome>) {
    s.lock.In? &&
    match s.lock.pc
    case Looping(_, list, done, _) => list == items && done == outcomes
    case Taking(_, list, done, _, _) => list == items && done == outcomes
    case Purged(list, done, _) => list == items && done == outcomes
    case _ => false
  }

  /** It is the turn of entry `k`, and a descriptor, not of this purge, has a lock on its file. */
  ghost predicate FoundLocked(s: State, items: seq<Item>, k: nat) {
    && s.lock.In? && s.lock.pc.Looping? && s.lock.pc.items == items && |s.lock.pc.outcomes| == k < |items|
    && exists h :: h in s.handles && s.handles[h].ino == items[k].ino && s.handles[h].lock.Some?
  }

  /** Each entry that was skipped as locked was found so at an earlier state of the run. */
  ghost predicate SkipsExplained(run: seq<State>, i: nat, items: seq<Item>, outcomes: seq<Outcome>)
    requires i <= |run|
  {
    forall k :: 0 <= k < |outcomes| && outcomes[k].Locked? ==> exists m :: 0 <= m < i && FoundLocked(run[m], items, k)
  }

  lemma SkipFindsLock(c: Config, s: State, s': State, p: Proc)
    requires PurgeSkipStep(c, s, s', p)
    ensures FoundLocked(s, s.lock.pc.items, |s.lock.pc.outcomes|)
  {
  }

  /** One step either visits nothing more, or one more entry, or begins with none. */
  lemma VisitsBefore(c: Config, s: State, s': State, p: Proc, step: Step, items: seq<Item>, outcomes: seq<Outcome>)
    requires NextStep(c, s, s', p, step) && Visits(s', items, outcomes)
    ensures || Visits(s, items, outcomes)
            || outcomes == []
            || (outcomes != [] && Visits(s, items, outcomes[..|outcomes| - 1])
                && (outcomes[|outcomes| - 1].Locked? ==> FoundLocked(s, items, |outcomes| - 1)))
  {
    match step
    case PurgeSkip =>
      SkipFindsLock(c, s, s', p);
      assert outcomes[..|outcomes| - 1] == s.lock.pc.outcomes;
    case PurgeRemove => assert outcomes[..|outcomes| - 1] == s.lock.pc.outcomes;
    case PurgeRemoveFails => assert outcomes[..|outcomes| - 1] == s.lock.pc.outcomes;
    case _ =>
  }

  lemma ExplainedLonger(run: seq<State>, i: nat, items: seq<Item>, outcomes: seq<Outcome>)
    requires i < |run| && outcomes != [] && SkipsExplained(run, i, items, outcomes[..|outcomes| - 1])
    requires outcomes[|outcomes| - 1].Locked? ==> FoundLocked(run[i], items, |outcomes| - 1)
    ensures SkipsExplained(run, i + 1, items, outcomes)
  {
    var fewer := outcomes[..|outcomes| - 1];
    forall k | 0 <= k < |outcomes| && outcomes[k].Locked?
      ensures exists m :: 0 <= m < i + 1 && FoundLocked(run[m], items, k)
    {
      if k < |fewer| {
        assert fewer[k].Locked?;
        var m :| 0 <= m < i && FoundLocked(run[m], items, k);
      }
    }
  }

  lemma VisitsOneBefore(c: Config, run: seq<State>, i: nat, items: seq<Item>, outcomes: seq<Outcome>)
    requires IsRun(c, run) && i + 1 < |run| && Visits(run[i + 1], items, outcomes)
    ensures || Visits(run[i], items, outcomes)
            || outcomes == []
            || (outcomes != [] && Visits(run[i], items, outcomes[..|outcomes| - 1])
                && (outcomes[|outcomes| - 1].Locked? ==> FoundLocked(run[i], items, |outcomes| - 1)))
  {
    assert Next(c, run[i], run[i + 1]);
    var p, step :| NextStep(c, run[i], run[i + 1], p, step);
    VisitsBefore(c, run[i], run[i + 1], p, step, items, outcomes);
  }

  lemma {:induction false} SkippedWereLocked(c: Config, run: seq<State>, i: nat, items: seq<Item>,
                                             outcomes: seq<Outcome>)
    requires IsRun(c, run) && i < |run| && Visits(run[i], items, outcomes)
    ensures SkipsExplained(run, i, items, outcomes)
    decreases i
  {
    if i > 0 {
      VisitsOneBefore(c, run, i - 1, items, outcomes);
      if Visits(run[i - 1], items, outcomes) {
        SkippedWereLocked(c, run, i - 1, items, outcomes);
      } else if outcomes != [] {
        SkippedWereLocked(c, run, i - 1, items, outcomes[..|outcomes| - 1]);
        ExplainedLonger(run, i - 1, items, outcomes);
      }
    }
  }

  // ---- Least recently used first ----

  /** When a purge is complete, it has visited files in the order of their access times and removed
      exactly the bytes it noted; it stopped at the first point where they exceeded the purge size, or
      ran out of files; each file that it skipped as locked had a lock of another descriptor when its
      turn came; and a file that survives was skipped or undeletable, or is at least as recent as every
      file that was visited. */
  lemma PurgeIsLeastRecentlyUsed(c: Config, run: seq<State>, i: nat)
    requires c.capacity < TWO_64 && IsRun(c, run) && i < |run|
    requires run[i].lock.In? && run[i].lock.pc.Purged?
    ensures var s := run[i]; var pc := s.lock.pc;
      && |pc.outcomes| <= |pc.items|
      && (forall j, k :: 0 <= j < k < |pc.items| ==> pc.items[j].atime <= pc.items[k].atime)
      && pc.removed == RemovedBytes(pc.items, pc.outcomes)
      && (pc.removed > c.purgeSize || |pc.outcomes| == |pc.items|)
      && (forall k :: 0 <= k < |pc.outcomes| ==> RemovedBytes(pc.items, pc.outcomes[..k]) <= c.purgeSize)
      && (forall k :: 0 <= k < |pc.outcomes| && pc.outcomes[k].Removed? ==>
            pc.items[k].ino < |s.files| && !s.files[pc.items[k].ino].linked)
      && SkipsExplained(run, i, pc.items, pc.outcomes)
      && (forall ino :: 0 <= ino < |s.files| && s.files[ino].linked ==> Survives(pc, ino))
  {
    ReachableInv(c, run, i);
    ReachablePurgeStops(c, run, i);
    var s := run[i];
    var pc := s.lock.pc;
    SkippedWereLocked(c, run, i, pc.items, pc.outcomes);
    forall ino | 0 <= ino < |s.files| && s.files[ino].linked
      ensures Survives(pc, ino)
    {
      assert Listed(pc.items, ino);
      var j :| 0 <= j < |pc.items| && pc.items[j].ino == ino;
      assert SurvivesAt(pc, j);
    }
  }

  /** The entry was passed over, or is at least as recent as everything that was visited. */
  ghost predicate SurvivesAt(pc: PC, j: nat)
    requires pc.Purged? && j < |pc.items| && |pc.outcomes| <= |pc.items|
  {
    if j < |pc.outcomes| then !pc.outcomes[j].Removed?
    else forall i :: 0 <= i < |pc.outcomes| ==> pc.items[i].atime <= pc.items[j].atime
  }

  ghost predicate Survives(pc: PC, ino: Ino)
    requires pc.Purged? && |pc.outcomes| <= |pc.items|
  {
    exists j :: 0 <= j < |pc.items| && pc.items[j].ino == ino && SurvivesAt(pc, j)
  }

  // ---- When it does nothing ----

  /** The linked files among the first `n`, as a directory listing. */
  function Listing(files: seq<File>, n: nat): seq<Ino>
    requires n <= |files|
  {
    if n == 0 then [] else Listing(files, n - 1) + if files[n - 1].linked then [n - 1] else []
  }

  lemma {:induction false} ListingLists(files: seq<File>, n: nat)
    requires n <= |files|
    ensures forall i :: 0 <= i < |Listing(files, n)| ==> Listing(files, n)[i] < n && files[Listing(files, n)[i]].linked
    ensures forall i, j :: 0 <= i < j < |Listing(files, n)| ==> Listing(files, n)[i] != Listing(files, n)[j]
    ensures forall ino :: 0 <= ino < n && files[ino].linked ==> ino in Listing(files, n)
  {
    if n > 0 {
      ListingLists(files, n - 1);
    }
  }

  /** A purge returns at once if and only if the recorded size is below the maximum; otherwise it goes
      through the directory. So a maximum of zero makes every purge a real one. */
  lemma PurgeReturnsAtOnceIff(c: Config, s: State, p: Proc)
    requires At(s, p, Start(Purge))
    ensures (exists s' :: PurgeNotNeededStep(c, s, s', p)) <==> s.recorded < c.maxSize
    ensures (exists s', listing :: PurgeListStep(c, s, s', p, listing)) <==> c.maxSize <= s.recorded
    ensures c.maxSize == 0 ==> exists s', listing :: PurgeListStep(c, s, s', p, listing)
  {
    if s.recorded < c.maxSize {
      assert PurgeNotNeededStep(c, s, Move(s, p, Finished), p);
    } else {
      var listing := Listing(s.files, |s.files|);
      ListingLists(s.files, |s.files|);
      assert PurgeListStep(c, s, Move(s, p, Scanning(s.recorded, listing, [])), p, listing);
    }
  }

  const FIVE := File("key", 5, 0, true, true)

  /** The cache with one file of five bytes. */
  const STORED := State([FIVE], 5, Free, map[])

  /** The file is created and written to. */
  lemma PutWrites(c: Config) returns (trace: seq<State>)
    requires 5 <= c.capacity < TWO_64
    ensures IsTrace(c, trace) && Initial(trace[0])
    ensures trace[|trace| - 1] == State([FIVE.(counted := false)], 0, In(0, Writing(0)),
                                        map[0 := Handle(0, 0, Some(Exclusive), false, false)])
  {
    var s0 := State([], 0, Free, map[]);
    var s1 := Move(s0, 0, Start(Put("key")));
    Took(c, s0, s1, 0, Acquire(Put("key")));
    var empty := File("key", 0, 0, true, false);
    var s2 := State([empty], 0, In(0, Writing(0)), map[0 := Handle(0, 0, Some(Exclusive), false, false)]);
    Took(c, s1, s2, 0, Create(0, 0));
    assert LinkedBytes([empty][..0]) == 0 && LinkedBytes([empty]) == 0;
    var s3 := s2.(files := [empty.(size := 5)]);
    Took(c, s2, s3, 0, PutWrite(5));
    trace := [s0, s1, s2, s3];
  }

  /** Its size is recorded, and the lock released. */
  lemma PutRecords(c: Config, s: State) returns (trace: seq<State>)
    requires s == State([FIVE.(counted := false)], 0, In(0, Writing(0)),
                        map[0 := Handle(0, 0, Some(Exclusive), false, false)])
    ensures IsTrace(c, trace) && Next(c, s, trace[0]) && trace[|trace| - 1] == STORED
  {
    var s1 := Move(s, 0, Adding(0, 5));
    Took(c, s, s1, 0, AddSize);
    var s2 := State([FIVE], 5, In(0, Closing(0)), s.handles);
    Took(c, s1, s2, 0, RecordSum);
    var s3 := STORED.(lock := In(0, Finished));
    Took(c, s2, s3, 0, CloseOwn);
    Took(c, s3, STORED, 0, Release);
    trace := [s1, s2, s3, STORED];
  }

  /** A purge lists the file. */
  lemma PurgeLists(c: Config) returns (trace: seq<State>)
    requires c.maxSize == 0
    ensures IsTrace(c, trace) && Next(c, STORED, trace[0])
    ensures trace[|trace| - 1] == Move(STORED, 1, Looping(5, LISTED, [], 0))
  {
    var items := LISTED;
    var s1 := Move(STORED, 1, Start(Purge));
    Took(c, STORED, s1, 1, Acquire(Purge));
    var s2 := Move(STORED, 1, Scanning(5, [0], []));
    Took(c, s1, s2, 1, PurgeList([0]));
    var s3 := Move(STORED, 1, Scanning(5, [], items));
    assert [0][1..] == [] && Insert([], Item(0, 0, 5)) == items;
    Took(c, s2, s3, 1, PurgeStat);
    var s4 := Move(STORED, 1, Looping(5, items, [], 0));
    Took(c, s3, s4, 1, PurgeStart);
    trace := [s1, s2, s3, s4];
  }

  const LISTED := [Item(0, 0, 5)]

  const GONE := FIVE.(linked := false)

  /** It locks the file, */
  lemma PurgeLocks(c: Config, s: State, s': State)
    requires s == Move(STORED, 1, Looping(5, LISTED, [], 0))
    requires s' == State([FIVE], 5, In(1, Taking(5, LISTED, [], 0, 0)),
                           map[0 := Handle(1, 0, Some(Exclusive), false, false)])
    ensures Next(c, s, s')
  {
    assert [FIVE][0 := FIVE] == [FIVE];
    Took(c, s, s', 1, PurgeTake(0, 0));
  }

  /** removes it, */
  lemma PurgeUnlinks(c: Config, s: State, s': State)
    requires s == State([FIVE], 5, In(1, Taking(5, LISTED, [], 0, 0)),
                           map[0 := Handle(1, 0, Some(Exclusive), false, false)])
    requires s' == State([GONE], 5, In(1, Looping(5, LISTED, [Removed], 5)), map[])
    ensures Next(c, s, s')
  {
    assert [FIVE][0 := GONE] == [GONE];
    assert s.handles - {0} == map[] && [] + [Removed] == [Removed];
    Took(c, s, s', 1, PurgeRemove);
  }

  /** and records the new size. */
  lemma PurgeRemoves(c: Config, s: State) returns (trace: seq<State>)
    requires s == Move(STORED, 1, Looping(5, LISTED, [], 0))
    ensures IsTrace(c, trace) && Next(c, s, trace[0])
    ensures trace[|trace| - 1] == State([GONE], 0, In(1, Purged(LISTED, [Removed], 5)), map[])
  {
    var s1 := State([FIVE], 5, In(1, Taking(5, LISTED, [], 0, 0)),
                    map[0 := Handle(1, 0, Some(Exclusive), false, false)]);
    PurgeLocks(c, s, s1);
    var s2 := State([GONE], 5, In(1, Looping(5, LISTED, [Removed], 5)), map[]);
    PurgeUnlinks(c, s1, s2);
    var s3 := State([GONE], 0, In(1, Purged(LISTED, [Removed], 5)), map[]);
    Took(c, s2, s3, 1, PurgeFinish);
    trace := [s1, s2, s3];
  }

  /** With a maximum of zero a purge removes even the only file. */
  lemma ZeroMaximumPurges(c: Config) returns (run: seq<State>)
    requires c.maxSize == 0 && 5 <= c.capacity < TWO_64
    ensures IsRun(c, run) && run[|run| - 1].recorded == 0
    ensures run[|run| - 1].lock == In(1, Purged(LISTED, [Removed], 5))
  {
    run := PutWrites(c);
    var more := PutRecords(c, run[|run| - 1]);
    JoinTraces(c, run, more);
    run := run + more;
    more := PurgeLists(c);
    JoinTraces(c, run, more);
    run := run + more;
    more := PurgeRemoves(c, run[|run| - 1]);
    JoinTraces(c, run, more);
    run := run + more;
  }
}
