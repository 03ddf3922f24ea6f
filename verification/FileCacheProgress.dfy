/** When the process inside the cache lock can go on, and when it cannot. */
module FileCacheProgress {
  import opened Options
  import opened FileCache
  import opened FileCacheInvariant
  import opened FileCacheSteps
  import opened FileCachePurge

  /** The process inside the cache lock has a step of its own to take. */
  ghost predicate CanStep(c: Config, s: State, p: Proc) {
    exists s', step :: OwnStep(step) && NextStep(c, s, s', p, step)
  }

  /** A step of an operation, as opposed to one with an open item. */
  predicate OwnStep(step: Step) { !step.CloseItem? && !step.WriteItem? && !step.ReadItem? && !step.Acquire? }

  /** It waits for the lock of a file that another descriptor holds. */
  ghost predicate Waits(s: State) {
    && s.lock.In? && s.lock.pc.Locking? && s.lock.pc.blocking
    && HasHandle(s, s.lock.pc.h) && !Compatible(s, s.handles[s.lock.pc.h].ino, s.lock.pc.kind)
  }

  lemma Steps(c: Config, s: State, s': State, p: Proc, step: Step)
    requires OwnStep(step) && NextStep(c, s, s', p, step)
    ensures CanStep(c, s, p)
  {
  }

  lemma {:induction false} Unused(keys: set<nat>) returns (h: nat)
    ensures h !in keys && forall k :: k in keys ==> k < h
    decreases |keys|
  {
    h := 0;
    if k :| k in keys {
      var g := Unused(keys - {k});
      assert keys == keys - {k} + {k};
      h := if g <= k then k + 1 else g;
    }
  }

  lemma StartCanStep(c: Config, s: State, p: Proc, op: Op)
    requires Inv(c, s) && At(s, p, Start(op)) && !op.Clear?
    ensures CanStep(c, s, p)
  {
    if KeyToCreate(op).Some? {
      CreateCanStep(c, s, p, op);
    } else if KeyToOpen(op).Some? {
      OpenCanStep(c, s, p, op);
    } else if op.Commit? {
      Steps(c, s, Move(s, p, Adding(op.handle, WrapAdd(s.recorded, FileOf(s, op.handle).size))), p, AddSize);
    } else {
      PurgeReturnsAtOnceIff(c, s, p);
      if s.recorded < c.maxSize {
        var s' :| PurgeNotNeededStep(c, s, s', p);
        Steps(c, s, s', p, PurgeNotNeeded);
      } else {
        var s', listing :| PurgeListStep(c, s, s', p, listing);
        Steps(c, s, s', p, PurgeList(listing));
      }
    }
  }

  lemma CreateCanStep(c: Config, s: State, p: Proc, op: Op)
    requires Inv(c, s) && At(s, p, Start(op)) && KeyToCreate(op).Some?
    ensures CanStep(c, s, p)
  {
    if Present(s, KeyToCreate(op).value) {
      Steps(c, s, Move(s, p, Finished), p, CreateRefused);
    } else {
      var h := Unused(s.handles.Keys);
      var s' := s.(
        files := s.files + [File(KeyToCreate(op).value, 0, 0, true, false)],
        handles := s.handles[h := Handle(p, |s.files|, Some(Exclusive), op.OpenPut?, false)],
        lock := In(p, if op.OpenPut? then Finished else Writing(h)));
      Steps(c, s, s', p, Create(h, 0));
    }
  }

  lemma OpenCanStep(c: Config, s: State, p: Proc, op: Op)
    requires Inv(c, s) && At(s, p, Start(op)) && KeyToOpen(op).Some?
    ensures CanStep(c, s, p)
  {
    if ino :| Names(s, KeyToOpen(op).value, ino) {
      var h := Unused(s.handles.Keys);
      var s' := s.(
        handles := s.handles[h := Handle(p, ino, None, false, false)],
        lock := In(p, Locking(h, if op.Get? then op.kind else Exclusive, op.blocking, op.Del?)));
      Steps(c, s, s', p, OpenExisting(h, ino));
    } else {
      Steps(c, s, Move(s, p, Finished), p, OpenMissing);
    }
  }

  lemma LockingCanStep(c: Config, s: State, p: Proc)
    requires Inv(c, s) && s.lock.In? && s.lock.proc == p && s.lock.pc.Locking? && !Waits(s)
    ensures CanStep(c, s, p)
  {
    var pc := s.lock.pc;
    if Compatible(s, s.handles[pc.h].ino, pc.kind) {
      var s' := s.(
        files := s.files[s.handles[pc.h].ino := FileOf(s, pc.h).(atime := 0)],
        handles := s.handles[pc.h := s.handles[pc.h].(lock := Some(pc.kind))],
        lock := In(p, if pc.deleting then Holding(pc.h) else Finished));
      Steps(c, s, s', p, LockGranted(0));
    } else {
      Steps(c, s, Move(s, p, if pc.deleting then Closing(pc.h) else Finished), p, LockRefused);
    }
  }

  lemma LoopCanStep(c: Config, s: State, p: Proc)
    requires Inv(c, s) && s.lock.In? && s.lock.proc == p && s.lock.pc.Looping?
    ensures CanStep(c, s, p)
  {
    var pc := s.lock.pc;
    if pc.removed > c.purgeSize || |pc.outcomes| == |pc.items| {
      var s' := s.(recorded := WrapSub(pc.ci, pc.removed), lock := In(p, Purged(pc.items, pc.outcomes, pc.removed)));
      Steps(c, s, s', p, PurgeFinish);
    } else if Compatible(s, Current(pc).ino, Exclusive) {
      var h := Unused(s.handles.Keys);
      var ino := Current(pc).ino;
      var s' := s.(
        files := s.files[ino := s.files[ino].(atime := 0)],
        handles := s.handles[h := Handle(p, ino, Some(Exclusive), false, false)],
        lock := In(p, Taking(pc.ci, pc.items, pc.outcomes, pc.removed, h)));
      Steps(c, s, s', p, PurgeTake(h, 0));
    } else {
      Steps(c, s, Move(s, p, Looping(pc.ci, pc.items, pc.outcomes + [Locked], pc.removed)), p, PurgeSkip);
    }
  }

  lemma PutCanStep(c: Config, s: State, p: Proc)
    requires Inv(c, s) && s.lock.In? && s.lock.proc == p && (s.lock.pc.Writing? || s.lock.pc.Adding?)
    ensures CanStep(c, s, p)
  {
    var h := s.lock.pc.h;
    assert Uncommitted(s, h);
    if s.lock.pc.Writing? {
      Steps(c, s, Move(s, p, Adding(h, WrapAdd(s.recorded, FileOf(s, h).size))), p, AddSize);
    } else {
      var s' := s.(
        recorded := s.lock.pc.sum,
        files := s.files[s.handles[h].ino := FileOf(s, h).(counted := true)],
        handles := s.handles[h := s.handles[h].(committed := s.handles[h].isPut)],
        lock := In(p, if s.handles[h].isPut then Finished else Closing(h)));
      Steps(c, s, s', p, RecordSum);
    }
  }

  lemma DelCanStep(c: Config, s: State, p: Proc)
    requires Inv(c, s) && s.lock.In? && s.lock.proc == p
    requires s.lock.pc.Holding? || s.lock.pc.Sized? || s.lock.pc.Unlinked?
    ensures CanStep(c, s, p)
  {
    match s.lock.pc
    case Holding(h) => Steps(c, s, Move(s, p, Sized(h, FileOf(s, h).size)), p, TakeSize);
    case Sized(h, _) => Steps(c, s, Move(s, p, Closing(h)), p, UnlinkFails);
    case Unlinked(h, size) =>
      Steps(c, s, s.(recorded := WrapSub(s.recorded, size), lock := In(p, Closing(h))), p, RecordDeletion);
  }

  lemma ScanCanStep(c: Config, s: State, p: Proc)
    requires Inv(c, s) && s.lock.In? && s.lock.proc == p && s.lock.pc.Scanning?
    ensures CanStep(c, s, p)
  {
    var pc := s.lock.pc;
    if pc.left == [] {
      Steps(c, s, Move(s, p, Looping(pc.ci, pc.items, [], 0)), p, PurgeStart);
    } else {
      var item := Item(pc.left[0], s.files[pc.left[0]].atime, s.files[pc.left[0]].size);
      Steps(c, s, Move(s, p, Scanning(pc.ci, pc.left[1..], Insert(pc.items, item))), p, PurgeStat);
    }
  }

  lemma EndCanStep(c: Config, s: State, p: Proc)
    requires s.lock.In? && s.lock.proc == p
    requires s.lock.pc.Taking? || s.lock.pc.Purged? || s.lock.pc.Closing? || s.lock.pc.Finished?
    ensures CanStep(c, s, p)
  {
    match s.lock.pc
    case Taking(ci, items, outcomes, removed, h) =>
      var s' := s.(handles := s.handles - {h}, lock := In(p, Looping(ci, items, outcomes + [Undeletable], removed)));
      Steps(c, s, s', p, PurgeRemoveFails);
    case Closing(h) => Steps(c, s, s.(handles := s.handles - {h}, lock := In(p, Finished)), p, CloseOwn);
    case _ => Steps(c, s, s.(lock := Free), p, Release);
  }

  /** In every reachable state the process inside the cache lock can go on, if and only if it is not in
      a blocking `get` or `del` of a file that another descriptor has locked. */
  lemma CanStepIff(c: Config, run: seq<State>, i: nat, p: Proc)
    requires c.capacity < TWO_64 && IsRun(c, run) && i < |run|
    requires run[i].lock.In? && run[i].lock.proc == p && run[i].lock.pc != Start(Clear)
    ensures CanStep(c, run[i], p) <==> !Waits(run[i])
  {
    var s := run[i];
    ReachableInv(c, run, i);
    ClearingNotReached(c, run, i);
    if Waits(s) {
      WaitingCannotStep(c, s, p);
    } else {
      match s.lock.pc
      case Start(op) => StartCanStep(c, s, p, op);
      case Locking(_, _, _, _) => LockingCanStep(c, s, p);
      case Looping(_, _, _, _) => LoopCanStep(c, s, p);
      case Scanning(_, _, _) => ScanCanStep(c, s, p);
      case Writing(_) => PutCanStep(c, s, p);
      case Adding(_, _) => PutCanStep(c, s, p);
      case Holding(_) => DelCanStep(c, s, p);
      case Sized(_, _) => DelCanStep(c, s, p);
      case Unlinked(_, _) => DelCanStep(c, s, p);
      case _ => EndCanStep(c, s, p);
    }
  }

  lemma WaitingCannotStep(c: Config, s: State, p: Proc)
    requires Waits(s)
    ensures !CanStep(c, s, p)
  {
  }

  lemma {:induction false} ClearingNotReached(c: Config, run: seq<State>, i: nat)
    requires IsRun(c, run) && i < |run|
    ensures run[i].lock.In? ==> !run[i].lock.pc.Clearing?
  {
    if i > 0 {
      ClearingNotReached(c, run, i - 1);
      assert Next(c, run[i - 1], run[i - 1 + 1]);
      var p, step :| NextStep(c, run[i - 1], run[i], p, step);
    }
  }

  // ---- Every operation comes to its end ----

  /** How far the operation inside the cache lock is from its end. */
  function Phase(lock: CacheLock): nat {
    if lock.Free? then 0
    else
      match lock.pc
      case Start(_) => 7
      case Locking(_, _, _, _) => 6
      case Holding(_) => 5
      case Scanning(_, _, _) => 5
      case Writing(_) => 4
      case Sized(_, _) => 4
      case Looping(_, _, _, _) => 4
      case Taking(_, _, _, _, _) => 4
      case Adding(_, _) => 3
      case Unlinked(_, _) => 3
      case Closing(_) => 2
      case Clearing(_) => 2
      case _ => 1
  }

  /** And how many rounds its loop has left. */
  function Rounds(lock: CacheLock): int {
    if lock.Free? then 0
    else
      match lock.pc
      case Scanning(_, left, _) => |left|
      case Looping(_, items, outcomes, _) => 2 * (|items| - |outcomes|)
      case Taking(_, items, outcomes, _, _) => 2 * (|items| - |outcomes|) - 1
      case _ => 0
  }

  /** A measure that has a lower bound in every reachable state. */
  ghost predicate Closer(lock': CacheLock, lock: CacheLock) {
    Phase(lock') < Phase(lock) || (Phase(lock') == Phase(lock) && Rounds(lock') < Rounds(lock))
  }

  predicate PurgeStep(step: Step) {
    || step.PurgeNotNeeded? || step.PurgeList? || step.PurgeStat? || step.PurgeStart? || step.PurgeSkip?
    || step.PurgeTake? || step.PurgeRemove? || step.PurgeRemoveFails? || step.PurgeFinish?
  }

  lemma PurgeStepCloser(c: Config, s: State, s': State, p: Proc, step: Step)
    requires NextStep(c, s, s', p, step) && PurgeStep(step)
    ensures Closer(s'.lock, s.lock)
  {
  }

  predicate PutStep(step: Step) {
    || step.CreateRefused? || step.Create? || step.PutGiveUp? || step.AddSize? || step.RecordSum? || step.Release?
  }

  lemma PutStepCloser(c: Config, s: State, s': State, p: Proc, step: Step)
    requires NextStep(c, s, s', p, step) && PutStep(step)
    ensures Closer(s'.lock, s.lock)
  {
  }

  lemma GetDelStepCloser(c: Config, s: State, s': State, p: Proc, step: Step)
    requires NextStep(c, s, s', p, step) && OwnStep(step) && !PurgeStep(step) && !PutStep(step) && !step.PutWrite?
    ensures Closer(s'.lock, s.lock)
  {
  }

  lemma OthersLeaveLock(c: Config, s: State, s': State, p: Proc, step: Step)
    requires NextStep(c, s, s', p, step) && !OwnStep(step) && !step.Acquire?
    ensures s'.lock == s.lock
  {
  }

  /** Every step of an operation but the writes of a `put` brings it closer to releasing the cache lock. */
  lemma OwnStepsTerminate(c: Config, s: State, s': State, p: Proc, step: Step)
    requires NextStep(c, s, s', p, step) && OwnStep(step) && !step.PutWrite?
    ensures Closer(s'.lock, s.lock)
  {
    if PurgeStep(step) {
      PurgeStepCloser(c, s, s', p, step);
    } else if PutStep(step) {
      PutStepCloser(c, s, s', p, step);
    } else {
      GetDelStepCloser(c, s, s', p, step);
    }
  }

  /** It cannot come closer for ever. */
  lemma RoundsBounded(c: Config, run: seq<State>, i: nat)
    requires c.capacity < TWO_64 && IsRun(c, run) && i < |run|
    ensures Rounds(run[i].lock) >= 0
  {
    ReachableInv(c, run, i);
  }

  // ---- Deadlock ----

  /** The process inside the cache lock waits for the file of a PutItem. */
  ghost predicate WaitsForPutItem(s: State, g: nat) {
    && Waits(s) && g in s.handles && g != s.lock.pc.h
    && s.handles[g].ino == s.handles[s.lock.pc.h].ino && s.handles[g].lock == Some(Exclusive)
    && s.handles[g].isPut && !s.handles[g].committed
  }

  /** The destructor of the PutItem needs the cache lock too, so nothing ever changes that. */
  lemma StillWaits(c: Config, s: State, s': State, g: nat)
    requires WaitsForPutItem(s, g) && Next(c, s, s')
    ensures WaitsForPutItem(s', g) && s'.lock == s.lock
  {
    var p, step :| NextStep(c, s, s', p, step);
    if step.CloseItem? || step.WriteItem? || step.ReadItem? {
      assert s'.handles[g] == s.handles[g] && s'.handles[s.lock.pc.h] == s.handles[s.lock.pc.h];
    }
  }

  /** A blocking `get` or `del` of a file whose PutItem is open keeps the cache lock for ever, whatever
      any process does. */
  lemma {:induction false} PutItemBlocksForEver(c: Config, trace: seq<State>, g: nat, i: nat)
    requires IsTrace(c, trace) && WaitsForPutItem(trace[0], g) && i < |trace|
    ensures WaitsForPutItem(trace[i], g) && trace[i].lock == trace[0].lock
  {
    if i > 0 {
      PutItemBlocksForEver(c, trace, g, i - 1);
      assert Next(c, trace[i - 1], trace[i - 1 + 1]);
      StillWaits(c, trace[i - 1], trace[i], g);
    }
  }

  /** And it happens: one process opens an item, another asks for it and is ready to wait. */
  lemma GetUnderPutItem(c: Config) returns (run: seq<State>)
    ensures IsRun(c, run) && WaitsForPutItem(run[|run| - 1], 0)
  {
    var handle := Handle(0, 0, Some(Exclusive), true, false);
    var s0 := State([], 0, Free, map[]);
    var s1 := Move(s0, 0, Start(OpenPut("key")));
    Took(c, s0, s1, 0, Acquire(OpenPut("key")));
    var s2 := State([File("key", 0, 0, true, false)], 0, In(0, Finished), map[0 := handle]);
    Took(c, s1, s2, 0, Create(0, 0));
    var s3 := s2.(lock := Free);
    Took(c, s2, s3, 0, Release);
    var s4 := Move(s3, 1, Start(Get("key", Shared, true)));
    Took(c, s3, s4, 1, Acquire(Get("key", Shared, true)));
    var s5 := s4.(handles := s4.handles[1 := Handle(1, 0, None, false, false)],
                  lock := In(1, Locking(1, Shared, true, false)));
    Took(c, s4, s5, 1, OpenExisting(1, 0));
    run := [s0, s1, s2, s3, s4, s5];
    assert HasHandle(s5, 1) && s5.handles[0] == handle;
  }
}
