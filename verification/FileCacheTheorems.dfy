/** What holds in every reachable state of the cache, whatever the processes and their order, as long as
    none of them clears it (see FileCacheClear for what changes then). */
module FileCacheTheorems {
  import opened Options
  import opened FileCache
  import opened FileCacheInvariant
  import opened FileCacheSteps

  // ---- The recorded size ----

  ghost predicate HeldByPutItem(s: State, ino: Ino) {
    exists h :: h in s.handles && s.handles[h].isPut && !s.handles[h].committed && s.handles[h].ino == ino
  }

  /** The bytes of the first `n` files of the directory, without those held by a PutItem whose
      destructor has not run. */
  ghost function SettledBytes(s: State, n: nat): nat
    requires n <= |s.files|
  {
    if n == 0 then 0
    else if s.files[n - 1].linked && !HeldByPutItem(s, n - 1) then SettledBytes(s, n - 1) + s.files[n - 1].size
    else SettledBytes(s, n - 1)
  }

  lemma {:induction false} SettledAreCounted(c: Config, s: State, n: nat)
    requires Inv(c, s) && s.lock.Free? && n <= |s.files|
    ensures SettledBytes(s, n) == CountedBytes(s.files[..n])
  {
    if n > 0 {
      SettledAreCounted(c, s, n - 1);
      assert s.files[..n][..n - 1] == s.files[..n - 1];
      var ino := n - 1;
      if !s.files[ino].counted {
        var h :| Uncommitted(s, h) && s.handles[h].ino == ino;
        assert HeldByPutItem(s, ino);
      } else if HeldByPutItem(s, ino) {
        var h :| h in s.handles && s.handles[h].isPut && !s.handles[h].committed && s.handles[h].ino == ino;
        assert Uncommitted(s, h);
      }
    }
  }

  /** Size conservation: whenever no operation is inside the cache lock, the recorded size is the
      sum of the sizes of all files of the directory that no uncommitted PutItem holds. */
  lemma RecordedSizeIsConserved(c: Config, run: seq<State>, i: nat)
    requires c.capacity < TWO_64 && IsRun(c, run) && i < |run| && run[i].lock.Free?
    ensures run[i].recorded == SettledBytes(run[i], |run[i].files|)
  {
    ReachableInv(c, run, i);
    SettledAreCounted(c, run[i], |run[i].files|);
    assert run[i].files[..|run[i].files|] == run[i].files;
  }

  /** No update of the recorded size wraps around: each addition and subtraction is exact. */
  lemma UpdatesNeverWrap(c: Config, run: seq<State>, i: nat, p: Proc)
    requires c.capacity < TWO_64 && IsRun(c, run) && i + 1 < |run|
    ensures RecordDeletionStep(run[i], run[i + 1], p) ==>
      run[i].lock.pc.size <= run[i].recorded && run[i + 1].recorded == run[i].recorded - run[i].lock.pc.size
    ensures PurgeFinishStep(c, run[i], run[i + 1], p) ==>
      run[i].lock.pc.removed <= run[i].recorded && run[i + 1].recorded == run[i].recorded - run[i].lock.pc.removed
    ensures RecordSumStep(run[i], run[i + 1], p) ==>
      run[i + 1].recorded == run[i].recorded + FileOf(run[i], run[i].lock.pc.h).size < TWO_64
  {
    ReachableInv(c, run, i);
    ReachableInv(c, run, i + 1);
  }

  // ---- Locks ----

  /** No step of an operation other than `clear` takes a file out of the directory while a descriptor
      other than the remover's own has it locked: not an Item of `get`, and not a PutItem. */
  lemma RemovalRespectsLocks(c: Config, run: seq<State>, i: nat, ino: Ino, h: nat)
    requires c.capacity < TWO_64 && IsRun(c, run) && i + 1 < |run|
    requires ino < |run[i].files| && run[i].files[ino].linked && |run[i + 1].files| > ino
             && !run[i + 1].files[ino].linked
    requires h in run[i].handles && run[i].handles[h].ino == ino && run[i].handles[h].lock.Some?
    ensures Busy(run[i]) == Some(h) && !run[i].handles[h].isPut
  {
    ReachableInv(c, run, i);
    var s, s' := run[i], run[i + 1];
    assert Next(c, s, s');
    var p, step :| NextStep(c, s, s', p, step);
    OnlyRemoversUnlink(c, s, s', p, step, ino);
    var g := s.lock.pc.h;
    assert s.handles[g].lock == Some(Exclusive);
  }

  lemma OnlyRemoversUnlink(c: Config, s: State, s': State, p: Proc, step: Step, ino: Ino)
    requires Inv(c, s) && NextStep(c, s, s', p, step)
    requires ino < |s.files| && s.files[ino].linked && ino < |s'.files| && !s'.files[ino].linked
    ensures s.lock.In? && (s.lock.pc.Sized? || s.lock.pc.Taking?)
    ensures HasHandle(s, s.lock.pc.h) && s.handles[s.lock.pc.h].ino == ino
  {
    if step.Unlink? || step.PurgeRemove? {
    } else if PutOrGet(step) {
      PutsKeepLinks(c, s, s', p, step, ino);
    } else if step.Create? || step.RecordSum? || step.OpenExisting? {
      OpensKeepLinks(c, s, s', p, step, ino);
    } else {
      OthersKeepLinks(c, s, s', p, step, ino);
    }
  }

  predicate PutOrGet(step: Step) {
    step.PutWrite? || step.PutGiveUp? || step.AddSize? || step.LockGranted? || step.PurgeTake? || step.CloseOwn?
  }

  lemma PutsKeepLinks(c: Config, s: State, s': State, p: Proc, step: Step, ino: Ino)
    requires Inv(c, s) && NextStep(c, s, s', p, step) && ino < |s.files| && s.files[ino].linked && ino < |s'.files|
    requires PutOrGet(step)
    ensures s'.files[ino].linked
  {
  }

  lemma OpensKeepLinks(c: Config, s: State, s': State, p: Proc, step: Step, ino: Ino)
    requires Inv(c, s) && NextStep(c, s, s', p, step) && ino < |s.files| && s.files[ino].linked && ino < |s'.files|
    requires step.Create? || step.RecordSum? || step.OpenExisting?
    ensures s'.files[ino].linked
  {
  }

  lemma OthersKeepLinks(c: Config, s: State, s': State, p: Proc, step: Step, ino: Ino)
    requires Inv(c, s) && NextStep(c, s, s', p, step) && ino < |s.files| && s.files[ino].linked && ino < |s'.files|
    requires !PutOrGet(step) && !step.Unlink? && !step.PurgeRemove?
    requires !step.Create? && !step.RecordSum? && !step.OpenExisting?
    ensures s'.files[ino].linked
  {
  }
}
