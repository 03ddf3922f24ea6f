/** What a whole purge leaves as it was. */
module FileCachePurgeRuns {
  import opened Options
  import opened FileCache
  import opened FileCacheInvariant
  import opened FileCacheOperations

  /** No file is new, longer or shorter (but for those that a PutItem is filling), or back in the directory;
      and the descriptors are the same. */
  ghost predicate OnlyRemoves(s0: State, s: State, h: Option<nat>) {
    && |s.files| == |s0.files| && SizesKept(s0, s) && HandlesKept(s0, s, h)
    && forall i :: 0 <= i < |s.files| ==>
         s.files[i].key == s0.files[i].key && (s.files[i].linked ==> s0.files[i].linked)
  }

  ghost predicate PurgeSoFar(c: Config, s0: State, s: State, p: Proc) {
    && s.lock.In? && s.lock.proc == p
    && match s.lock.pc
       case Start(op) => op == Purge && Unaltered(s0, s, None)
       case Scanning(_, _, _) => c.maxSize <= s0.recorded && OnlyRemoves(s0, s, None)
       case Looping(_, _, _, _) => c.maxSize <= s0.recorded && OnlyRemoves(s0, s, None)
       case Taking(_, _, _, _, h) => c.maxSize <= s0.recorded && OnlyRemoves(s0, s, Some(h))
       case Purged(_, _, _) => c.maxSize <= s0.recorded && OnlyRemoves(s0, s, None)
       case Finished => s0.recorded < c.maxSize && Unaltered(s0, s, None)
       case _ => false
  }

  lemma RemovesOutside(c: Config, s0: State, s: State, s': State, q: Proc, step: Step, h: Option<nat>)
    requires NextStep(c, s, s', q, step) && Outside(step) && OnlyRemoves(s0, s, h)
    requires h.Some? ==> step != CloseItem(h.value) && !s.handles[h.value].isPut
    ensures OnlyRemoves(s0, s', h) && s'.lock == s.lock
  {
    if step.WriteItem? {
      WriteKeepsSizes(c, s0, s, s', q, step.h, step.n, h);
    }
  }

  lemma PurgeOutside(c: Config, s0: State, s: State, s': State, p: Proc, q: Proc, step: Step)
    requires NextStep(c, s, s', q, step) && Outside(step) && PurgeSoFar(c, s0, s, p)
    requires s.lock.pc.Taking? ==> !s.handles[s.lock.pc.h].isPut
    ensures PurgeSoFar(c, s0, s', p)
  {
    if s.lock.pc.Start? || s.lock.pc.Finished? {
      OutsideKeeps(c, s0, s, s', q, step, None, -1);
    } else {
      RemovesOutside(c, s0, s, s', q, step, if s.lock.pc.Taking? then Some(s.lock.pc.h) else None);
    }
  }

  predicate PurgeStep(step: Step) {
    || step.PurgeNotNeeded? || step.PurgeList? || step.PurgeStat? || step.PurgeStart? || step.PurgeSkip?
    || step.PurgeTake? || step.PurgeRemove? || step.PurgeRemoveFails? || step.PurgeFinish?
  }

  predicate PurgePc(pc: PC) {
    match pc
    case Start(op) => op.Purge?
    case _ => pc.Scanning? || pc.Looping? || pc.Taking? || pc.Purged? || pc.Finished?
  }

  lemma PurgeSteps(c: Config, s: State, s': State, q: Proc, step: Step)
    requires NextStep(c, s, s', q, step) && s.lock.In? && PurgePc(s.lock.pc)
    ensures Outside(step) || PurgeStep(step) || step.Release?
  {
  }

  lemma PurgeBegins(c: Config, s0: State, s: State, s': State, p: Proc, q: Proc, step: Step)
    requires NextStep(c, s, s', q, step) && PurgeSoFar(c, s0, s, p)
    requires step.PurgeNotNeeded? || step.PurgeList? || step.PurgeStat? || step.PurgeStart?
    ensures PurgeSoFar(c, s0, s', p)
  {
  }

  lemma PurgeTakes(c: Config, s0: State, s: State, s': State, p: Proc, q: Proc, step: Step)
    requires NextStep(c, s, s', q, step) && PurgeSoFar(c, s0, s, p)
    requires step.PurgeSkip? || step.PurgeTake? || step.PurgeFinish?
    ensures PurgeSoFar(c, s0, s', p)
  {
  }

  lemma PurgeDrops(c: Config, s0: State, s: State, s': State, p: Proc, q: Proc, step: Step)
    requires NextStep(c, s, s', q, step) && PurgeSoFar(c, s0, s, p)
    requires step.PurgeRemove? || step.PurgeRemoveFails?
    ensures PurgeSoFar(c, s0, s', p)
  {
  }

  lemma TakingIsItem(c: Config, s: State)
    requires Inv(c, s)
    ensures s.lock.In? && s.lock.pc.Taking? ==> s.lock.pc.h in s.handles && !s.handles[s.lock.pc.h].isPut
  {
  }

  lemma PurgeOnlyPc(c: Config, s0: State, s: State, p: Proc)
    requires PurgeSoFar(c, s0, s, p)
    ensures s.lock.In? && PurgePc(s.lock.pc)
  {
  }

  lemma PurgeKeeps(c: Config, s0: State, s: State, s': State, p: Proc, action: Action)
    requires StepInside(c, s, s', action) && PurgeSoFar(c, s0, s, p)
    ensures PurgeSoFar(c, s0, s', p)
  {
    var step := action.step;
    PurgeOnlyPc(c, s0, s, p);
    PurgeSteps(c, s, s', action.proc, step);
    if Outside(step) {
      TakingIsItem(c, s);
      PurgeOutside(c, s0, s, s', p, action.proc, step);
    } else if step.PurgeNotNeeded? || step.PurgeList? || step.PurgeStat? || step.PurgeStart? {
      PurgeBegins(c, s0, s, s', p, action.proc, step);
    } else if step.PurgeSkip? || step.PurgeTake? || step.PurgeFinish? {
      PurgeTakes(c, s0, s, s', p, action.proc, step);
    } else {
      PurgeDrops(c, s0, s, s', p, action.proc, step);
    }
  }

  /** A purge of a cache that is not full changes nothing; otherwise it removes files, and does nothing else: no
      file is new, no length is changed, and no descriptor is left open. */
  lemma PurgeOnlyRemoves(c: Config, run: seq<State>, actions: seq<Action>, a: nat, b: nat, p: Proc)
    requires c.capacity < TWO_64 && Operation(c, run, actions, a, b, p, Purge)
    ensures if run[a].recorded < c.maxSize then Unaltered(run[a], run[b + 1], None)
            else OnlyRemoves(run[a], run[b + 1], None)
  {
    var soFar := (s: State, course: Course) => PurgeSoFar(c, run[a], s, p);
    Ends(c, run, actions, a, b, p, Purge);
    forall s, s', action, course | StepInside(c, s, s', action) && soFar(s, course)
      ensures soFar(s', Met(course, p, action))
    {
      PurgeKeeps(c, run[a], s, s', p, action);
    }
    Follow(c, run, actions, a, b, p, Purge, soFar);
  }
}
