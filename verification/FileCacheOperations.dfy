/** What a whole operation does, from the moment its process takes the cache lock until it gives it back,
    whatever the other processes do with their items in between. */
module FileCacheOperations {
  import opened Options
  import opened FileCache
  import opened FileCacheInvariant
  import opened FileCacheSteps
  import opened FileCacheTheorems

  datatype Action = Action(proc: Proc, step: Step)

  /** A run together with what its processes did. */
  ghost predicate IsRunOf(c: Config, run: seq<State>, actions: seq<Action>) {
    && |run| == |actions| + 1 && Initial(run[0])
    && forall i :: 0 <= i < |actions| ==> NextStep(c, run[i], run[i + 1], actions[i].proc, actions[i].step)
  }

  /** Process `p` takes the cache lock for `op` at `a` and gives it back at `b`. */
  ghost predicate Operation(c: Config, run: seq<State>, actions: seq<Action>, a: nat, b: nat, p: Proc, op: Op) {
    && IsRunOf(c, run, actions) && a < b < |actions|
    && actions[a] == Action(p, Acquire(op)) && actions[b] == Action(p, Release)
    && forall k :: a < k < b ==> !actions[k].step.Release?
  }

  /** What an operation meets on its way: which descriptor it opens; a refused lock, a file that cannot be
      removed, a source that cannot be read; how much it writes; and which descriptors its process closes
      meanwhile. */
  datatype Course = Course(
    descriptor: Option<nat>,
    refused: bool,
    undeletable: bool,
    unreadable: bool,
    written: nat,
    closed: set<nat>)

  function Met(course: Course, p: Proc, action: Action): Course {
    if action.proc != p then course
    else
      match action.step
      case Create(h, _) => course.(descriptor := Some(h), closed := course.closed - {h})
      case OpenExisting(h, _) => course.(descriptor := Some(h), closed := course.closed - {h})
      case LockRefused => course.(refused := true)
      case UnlinkFails => course.(undeletable := true)
      case PutGiveUp => course.(unreadable := true)
      case PutWrite(n) => course.(written := course.written + n)
      case CloseItem(h) => course.(closed := course.closed + {h})
      case _ => course
  }

  function CourseOf(actions: seq<Action>, p: Proc): Course {
    if actions == [] then Course(None, false, false, false, 0, {})
    else Met(CourseOf(actions[..|actions| - 1], p), p, actions[|actions| - 1])
  }

  predicate Outside(step: Step) { step.CloseItem? || step.WriteItem? || step.ReadItem? }

  lemma RunOfIsRun(c: Config, run: seq<State>, actions: seq<Action>)
    requires IsRunOf(c, run, actions)
    ensures IsRun(c, run)
  {
    forall i | 0 <= i < |run| - 1
      ensures Next(c, run[i], run[i + 1])
    {
      assert NextStep(c, run[i], run[i + 1], actions[i].proc, actions[i].step);
    }
  }

  // ---- What stays as it was ----

  /** The directory, but for the file `ino`. */
  ghost predicate LinksKept(s0: State, s: State, ino: int) {
    && |s0.files| <= |s.files|
    && forall i :: 0 <= i < |s0.files| ==>
         s.files[i].key == s0.files[i].key && (i != ino ==> s.files[i].linked == s0.files[i].linked)
  }

  /** The sizes of the files that no PutItem is filling. */
  ghost predicate SizesKept(s0: State, s: State) {
    && |s0.files| <= |s.files|
    && forall i :: 0 <= i < |s0.files| ==> HeldByPutItem(s0, i) || s.files[i].size == s0.files[i].size
  }

  /** The descriptors: none is new but `h`, those that are left are the same, and open PutItems are left. */
  ghost predicate HandlesKept(s0: State, s: State, h: Option<nat>) {
    && (forall g :: g in s.handles ==> h == Some(g) || (g in s0.handles && s.handles[g] == s0.handles[g]))
    && (forall g :: g in s0.handles && s0.handles[g].isPut && !s0.handles[g].committed ==>
          h != Some(g) && g in s.handles && s.handles[g] == s0.handles[g])
    && (h.Some? ==> h.value in s.handles)
  }

  ghost predicate Kept(s0: State, s: State, h: Option<nat>, ino: int) {
    |s.files| == |s0.files| && LinksKept(s0, s, ino) && SizesKept(s0, s) && HandlesKept(s0, s, h)
  }

  // ---- del ----

  /** The descriptor `h` has the file of the key. */
  ghost predicate Opened(s0: State, s: State, p: Proc, key: string, h: nat) {
    h in s.handles && s.handles[h].owner == p && !s.handles[h].isPut && Names(s0, key, s.handles[h].ino)
  }

  ghost predicate Unaltered(s0: State, s: State, h: Option<nat>) {
    Kept(s0, s, h, -1) && s.recorded == s0.recorded
  }

  /** The file of the key is out of the directory, and its size out of the recorded size. */
  ghost predicate Gone(s0: State, s: State, key: string, h: Option<nat>, ino: Ino) {
    && Names(s0, key, ino) && Kept(s0, s, h, ino) && !s.files[ino].linked
    && s.recorded == s0.recorded - s0.files[ino].size
  }

  ghost predicate DelEnded(s0: State, s: State, key: string, course: Course, h: Option<nat>) {
    if course.refused || course.undeletable || !Present(s0, key) then Unaltered(s0, s, h)
    else exists ino: Ino :: Gone(s0, s, key, h, ino)
  }

  ghost predicate DelSoFar(s0: State, s: State, p: Proc, key: string, blocking: bool, course: Course) {
    && s.lock.In? && s.lock.proc == p && (blocking ==> !course.refused)
    && match s.lock.pc
       case Start(op) => op == Del(key, blocking) && !course.refused && !course.undeletable && Unaltered(s0, s, None)
       case Locking(h, kind, waits, deleting) =>
         && deleting && kind == Exclusive && waits == blocking && !course.refused && !course.undeletable
         && Opened(s0, s, p, key, h) && Unaltered(s0, s, Some(h))
       case Holding(h) =>
         && !course.refused && !course.undeletable && Opened(s0, s, p, key, h) && Unaltered(s0, s, Some(h))
         && !HeldByPutItem(s0, s.handles[h].ino)
       case Sized(h, size) =>
         && !course.refused && !course.undeletable && Opened(s0, s, p, key, h) && Unaltered(s0, s, Some(h))
         && size == s0.files[s.handles[h].ino].size
       case Unlinked(h, size) =>
         && !course.refused && !course.undeletable && Opened(s0, s, p, key, h) && s.recorded == s0.recorded
         && Kept(s0, s, Some(h), s.handles[h].ino) && !FileOf(s, h).linked
         && size == s0.files[s.handles[h].ino].size
       case Closing(h) => h in s.handles && DelEnded(s0, s, key, course, Some(h))
       case Finished => DelEnded(s0, s, key, course, None)
       case _ => false
  }

  /** What other processes do meanwhile changes none of that. */
  lemma OutsideKeeps(c: Config, s0: State, s: State, s': State, q: Proc, step: Step, h: Option<nat>, ino: int)
    requires NextStep(c, s, s', q, step) && Outside(step) && Kept(s0, s, h, ino)
    requires h.Some? ==> step != CloseItem(h.value) && !s.handles[h.value].isPut
    ensures Kept(s0, s', h, ino) && s'.lock == s.lock && s'.recorded == s.recorded
    ensures h.Some? ==> s'.handles[h.value] == s.handles[h.value]
    ensures forall i :: 0 <= i < |s.files| ==> s'.files[i].linked == s.files[i].linked
  {
    if step.WriteItem? {
      WriteKeepsSizes(c, s0, s, s', q, step.h, step.n, h);
    }
  }

  lemma WriteKeepsSizes(c: Config, s0: State, s: State, s': State, q: Proc, g: nat, n: nat, h: Option<nat>)
    requires WriteItemStep(c, s, s', q, g, n) && SizesKept(s0, s) && HandlesKept(s0, s, h)
    requires h.Some? ==> !s.handles[h.value].isPut
    ensures SizesKept(s0, s')
  {
    assert g in s0.handles && s0.handles[g] == s.handles[g];
    assert s.handles[g].ino < |s0.files| ==> HeldByPutItem(s0, s.handles[g].ino);
  }

  lemma DelEndedOutside(c: Config, s0: State, s: State, s': State, q: Proc, step: Step, key: string, course: Course,
                        h: Option<nat>)
    requires NextStep(c, s, s', q, step) && Outside(step) && DelEnded(s0, s, key, course, h)
    requires h.Some? ==> h.value in s.handles && Busy(s) == h && !s.handles[h.value].isPut
    ensures DelEnded(s0, s', key, course, h) && s'.lock == s.lock
    ensures h.Some? ==> h.value in s'.handles
  {
    if course.refused || course.undeletable || !Present(s0, key) {
      OutsideKeeps(c, s0, s, s', q, step, h, -1);
    } else {
      var ino: Ino :| Gone(s0, s, key, h, ino);
      OutsideKeeps(c, s0, s, s', q, step, h, ino);
      assert Gone(s0, s', key, h, ino);
    }
  }

  /** An operation that has opened the file of its key, and removed at most that. */
  lemma OpenedOutside(c: Config, s0: State, s: State, s': State, p: Proc, q: Proc, step: Step, key: string, h: nat,
                      ino: int)
    requires NextStep(c, s, s', q, step) && Outside(step) && Opened(s0, s, p, key, h) && Busy(s) == Some(h)
    requires Kept(s0, s, Some(h), ino)
    ensures Opened(s0, s', p, key, h) && Kept(s0, s', Some(h), ino) && s'.lock == s.lock && s'.recorded == s.recorded
    ensures s'.handles[h] == s.handles[h] && FileOf(s', h).linked == FileOf(s, h).linked
  {
    OutsideKeeps(c, s0, s, s', q, step, Some(h), ino);
  }

  /** While the file is open and not yet removed, or removed and not yet recorded. */
  lemma DelOutsideOpened(c: Config, s0: State, s: State, s': State, p: Proc, q: Proc, step: Step, key: string,
                         blocking: bool, course: Course)
    requires NextStep(c, s, s', q, step) && Outside(step) && DelSoFar(s0, s, p, key, blocking, course)
    requires s.lock.pc.Locking? || s.lock.pc.Holding? || s.lock.pc.Sized? || s.lock.pc.Unlinked?
    ensures DelSoFar(s0, s', p, key, blocking, course)
  {
    var ino: int := if s.lock.pc.Unlinked? then s.handles[s.lock.pc.h].ino else -1;
    OpenedOutside(c, s0, s, s', p, q, step, key, s.lock.pc.h, ino);
  }

  lemma DelOutside(c: Config, s0: State, s: State, s': State, p: Proc, q: Proc, step: Step, key: string, blocking: bool,
                   course: Course)
    requires NextStep(c, s, s', q, step) && Outside(step) && DelSoFar(s0, s, p, key, blocking, course)
    requires s.lock.pc.Start? || s.lock.pc.Closing? || s.lock.pc.Finished?
    requires s.lock.pc.Closing? ==> !s.handles[s.lock.pc.h].isPut
    ensures DelSoFar(s0, s', p, key, blocking, course)
  {
    match s.lock.pc
    case Start(_) => OutsideKeeps(c, s0, s, s', q, step, None, -1);
    case Closing(h) => DelEndedOutside(c, s0, s, s', q, step, key, course, Some(h));
    case Finished => DelEndedOutside(c, s0, s, s', q, step, key, course, None);
    case _ =>
  }

  lemma SamePresence(s0: State, s: State, key: string)
    requires |s.files| == |s0.files| && LinksKept(s0, s, -1)
    ensures Present(s, key) <==> Present(s0, key)
    ensures forall ino: Ino :: Names(s, key, ino) <==> Names(s0, key, ino)
  {
    forall ino: Ino
      ensures Names(s, key, ino) <==> Names(s0, key, ino)
    {
    }
  }

  lemma DelOpens(c: Config, s0: State, s: State, s': State, p: Proc, q: Proc, step: Step, key: string, blocking: bool,
                 course: Course)
    requires NextStep(c, s, s', q, step) && DelSoFar(s0, s, p, key, blocking, course)
    requires step.OpenMissing? || step.OpenExisting?
    ensures DelSoFar(s0, s', p, key, blocking, Met(course, p, Action(q, step)))
  {
    SamePresence(s0, s, key);
  }

  /** A lock is granted only if no PutItem is filling the file. */
  lemma GrantedSettled(c: Config, s0: State, s: State, h: nat, ino: Ino, kind: LockKind)
    requires Inv(c, s) && HandlesKept(s0, s, Some(h)) && Compatible(s, ino, kind)
    ensures !HeldByPutItem(s0, ino)
  {
  }

  lemma DelLocks(c: Config, s0: State, s: State, s': State, p: Proc, q: Proc, step: Step, key: string, blocking: bool,
                 course: Course)
    requires Inv(c, s) && NextStep(c, s, s', q, step) && DelSoFar(s0, s, p, key, blocking, course)
    requires step.LockGranted? || step.LockRefused?
    ensures DelSoFar(s0, s', p, key, blocking, Met(course, p, Action(q, step)))
  {
    if step.LockGranted? {
      var h := s.lock.pc.h;
      GrantedSettled(c, s0, s, h, s.handles[h].ino, s.lock.pc.kind);
    }
  }

  lemma DelRemoves(c: Config, s0: State, s: State, s': State, p: Proc, q: Proc, step: Step, key: string, blocking: bool,
                   course: Course)
    requires NextStep(c, s, s', q, step) && DelSoFar(s0, s, p, key, blocking, course)
    requires step.TakeSize? || step.Unlink? || step.UnlinkFails?
    ensures DelSoFar(s0, s', p, key, blocking, Met(course, p, Action(q, step)))
  {
  }

  lemma DelRecords(c: Config, s0: State, s: State, s': State, p: Proc, q: Proc, key: string, blocking: bool,
                   course: Course)
    requires Inv(c, s) && RecordDeletionStep(s, s', q) && DelSoFar(s0, s, p, key, blocking, course)
    ensures DelSoFar(s0, s', p, key, blocking, course)
  {
    var h := s.lock.pc.h;
    assert Names(s0, key, s.handles[h].ino);
    assert s'.recorded == s.recorded - s.lock.pc.size;
    assert Gone(s0, s', key, Some(h), s.handles[h].ino);
  }

  lemma KeptClosed(s0: State, s: State, s': State, h: nat, ino: int)
    requires Kept(s0, s, Some(h), ino) && s' == s.(handles := s.handles - {h}, lock := s'.lock)
    ensures Kept(s0, s', None, ino)
  {
  }

  lemma DelCloses(c: Config, s0: State, s: State, s': State, p: Proc, q: Proc, key: string, blocking: bool,
                  course: Course)
    requires CloseOwnStep(s, s', q) && DelSoFar(s0, s, p, key, blocking, course)
    ensures DelSoFar(s0, s', p, key, blocking, course)
  {
    var h := s.lock.pc.h;
    if course.refused || course.undeletable || !Present(s0, key) {
      KeptClosed(s0, s, s', h, -1);
    } else {
      var ino: Ino :| Gone(s0, s, key, Some(h), ino);
      KeptClosed(s0, s, s', h, ino);
      assert Gone(s0, s', key, None, ino);
    }
  }

  predicate DelPc(pc: PC) {
    match pc
    case Start(op) => op.Del?
    case Locking(_, _, _, deleting) => deleting
    case _ => pc.Holding? || pc.Sized? || pc.Unlinked? || pc.Closing? || pc.Finished?
  }

  predicate DelStep(step: Step) {
    || step.OpenMissing? || step.OpenExisting? || step.LockGranted? || step.LockRefused? || step.TakeSize?
    || step.Unlink? || step.UnlinkFails? || step.RecordDeletion? || step.CloseOwn?
  }

  /** No other step can be taken inside a `del`. */
  lemma DelSteps(c: Config, s: State, s': State, q: Proc, step: Step)
    requires NextStep(c, s, s', q, step) && s.lock.In? && DelPc(s.lock.pc)
    ensures Outside(step) || DelStep(step) || step.Release?
  {
  }

  lemma DelOnlyPc(s0: State, s: State, p: Proc, key: string, blocking: bool, course: Course, more: Course)
    requires DelSoFar(s0, s, p, key, blocking, course)
    ensures s.lock.In? && DelPc(s.lock.pc)
    ensures more.refused == course.refused && more.undeletable == course.undeletable ==>
              DelSoFar(s0, s, p, key, blocking, more)
  {
  }

  lemma ClosingIsItem(c: Config, s: State)
    requires Inv(c, s)
    ensures s.lock.In? && s.lock.pc.Closing? ==> s.lock.pc.h in s.handles && !s.handles[s.lock.pc.h].isPut
  {
  }

  lemma DelOutsideKeeps(c: Config, s0: State, s: State, s': State, p: Proc, q: Proc, step: Step, key: string,
                        blocking: bool, course: Course)
    requires NextStep(c, s, s', q, step) && Outside(step) && DelSoFar(s0, s, p, key, blocking, course)
    requires s.lock.pc.Closing? ==> !s.handles[s.lock.pc.h].isPut
    ensures DelSoFar(s0, s', p, key, blocking, Met(course, p, Action(q, step)))
  {
    if s.lock.pc.Start? || s.lock.pc.Closing? || s.lock.pc.Finished? {
      DelOutside(c, s0, s, s', p, q, step, key, blocking, course);
    } else {
      DelOutsideOpened(c, s0, s, s', p, q, step, key, blocking, course);
    }
    DelOnlyPc(s0, s', p, key, blocking, course, Met(course, p, Action(q, step)));
  }

  lemma DelOwnKeeps(c: Config, s0: State, s: State, s': State, p: Proc, q: Proc, step: Step, key: string,
                    blocking: bool, course: Course)
    requires Inv(c, s) && NextStep(c, s, s', q, step) && DelStep(step) && DelSoFar(s0, s, p, key, blocking, course)
    ensures DelSoFar(s0, s', p, key, blocking, Met(course, p, Action(q, step)))
  {
    if step.OpenMissing? || step.OpenExisting? {
      DelOpens(c, s0, s, s', p, q, step, key, blocking, course);
    } else if step.LockGranted? || step.LockRefused? {
      DelLocks(c, s0, s, s', p, q, step, key, blocking, course);
    } else if step.RecordDeletion? {
      DelRecords(c, s0, s, s', p, q, key, blocking, course);
    } else if step.CloseOwn? {
      DelCloses(c, s0, s, s', p, q, key, blocking, course);
    } else {
      DelRemoves(c, s0, s, s', p, q, step, key, blocking, course);
    }
  }

  lemma DelKeeps(c: Config, s0: State, s: State, s': State, p: Proc, q: Proc, step: Step, key: string, blocking: bool,
                 course: Course)
    requires Inv(c, s) && NextStep(c, s, s', q, step) && !step.Release?
    requires DelSoFar(s0, s, p, key, blocking, course)
    ensures DelSoFar(s0, s', p, key, blocking, Met(course, p, Action(q, step)))
  {
    DelOnlyPc(s0, s, p, key, blocking, course, course);
    DelSteps(c, s, s', q, step);
    if Outside(step) {
      ClosingIsItem(c, s);
      DelOutsideKeeps(c, s0, s, s', p, q, step, key, blocking, course);
    } else {
      DelOwnKeeps(c, s0, s, s', p, q, step, key, blocking, course);
    }
  }

  // ---- From the beginning to the end ----

  ghost predicate StepInside(c: Config, s: State, s': State, action: Action) {
    Inv(c, s) && NextStep(c, s, s', action.proc, action.step) && !action.step.Release?
  }

  /** Everything that can happen inside an operation keeps it. */
  ghost predicate KeptInside(c: Config, p: Proc, soFar: (State, Course) -> bool) {
    forall s, s', action, course ::
      StepInside(c, s, s', action) && soFar(s, course) ==> soFar(s', Met(course, p, action))
  }

  lemma StepsInside(c: Config, run: seq<State>, actions: seq<Action>, a: nat, b: nat, p: Proc, op: Op, k: nat)
    requires c.capacity < TWO_64 && Operation(c, run, actions, a, b, p, op) && a < k < b
    ensures StepInside(c, run[k], run[k + 1], actions[k])
  {
    RunOfIsRun(c, run, actions);
    ReachableInv(c, run, k);
  }

  lemma {:induction false} Trace(run: seq<State>, actions: seq<Action>, a: nat, p: Proc, k: nat,
                                 soFar: (State, Course) -> bool)
    requires a < k < |run| == |actions| + 1 && soFar(run[a + 1], CourseOf([], p))
    requires forall j, course :: a < j < k && soFar(run[j], course) ==> soFar(run[j + 1], Met(course, p, actions[j]))
    ensures soFar(run[k], CourseOf(actions[a + 1..k], p))
    decreases k
  {
    if k == a + 1 {
      assert actions[a + 1..k] == [];
    } else {
      Trace(run, actions, a, p, k - 1, soFar);
      assert actions[a + 1..k][..|actions[a + 1..k]| - 1] == actions[a + 1..k - 1];
    }
  }

  /** It holds at the end of an operation that it held of at the start. */
  lemma Follow(c: Config, run: seq<State>, actions: seq<Action>, a: nat, b: nat, p: Proc, op: Op,
               soFar: (State, Course) -> bool)
    requires c.capacity < TWO_64 && Operation(c, run, actions, a, b, p, op) && KeptInside(c, p, soFar)
    requires soFar(run[a + 1], CourseOf([], p))
    ensures soFar(run[b], CourseOf(actions[a + 1..b], p))
  {
    forall j, course | a < j < b && soFar(run[j], course)
      ensures soFar(run[j + 1], Met(course, p, actions[j]))
    {
      StepsInside(c, run, actions, a, b, p, op, j);
    }
    Trace(run, actions, a, p, b, soFar);
  }

  /** The states of an operation: before it, at its start, at its end, and after it. */
  lemma Ends(c: Config, run: seq<State>, actions: seq<Action>, a: nat, b: nat, p: Proc, op: Op)
    requires Operation(c, run, actions, a, b, p, op)
    ensures run[a].lock == Free && run[a + 1] == Move(run[a], p, Start(op))
    ensures run[b].lock.In? && (run[b].lock.pc.Finished? || run[b].lock.pc.Purged?)
    ensures run[b + 1] == run[b].(lock := Free)
  {
    assert NextStep(c, run[a], run[a + 1], actions[a].proc, actions[a].step);
    assert NextStep(c, run[b], run[b + 1], actions[b].proc, actions[b].step);
  }

  /** The file of the key has been removed, and its size taken off the recorded size. */
  ghost predicate Deleted(s: State, s': State, key: string) {
    && !Present(s', key)
    && exists ino: Ino :: Names(s, key, ino) && LinksKept(s, s', ino) && s'.recorded == s.recorded - s.files[ino].size
  }

  /** `del`: the file is gone and its size is no longer recorded, unless there was none, its lock was refused,
      or it could not be removed; then nothing is changed. No descriptor is left open either way, and a `del`
      that is ready to wait is not refused. */
  lemma DelDeletes(c: Config, run: seq<State>, actions: seq<Action>, a: nat, b: nat, p: Proc, key: string,
                   blocking: bool)
    requires c.capacity < TWO_64 && Operation(c, run, actions, a, b, p, Del(key, blocking))
    ensures var s, s', met := run[a], run[b + 1], CourseOf(actions[a + 1..b], p);
            && (if Present(s, key) && !met.refused && !met.undeletable then Deleted(s, s', key)
                else Unaltered(s, s', None))
            && |s'.files| == |s.files| && HandlesKept(s, s', None)
            && (blocking ==> !met.refused)
  {
    var soFar := (s: State, course: Course) => DelSoFar(run[a], s, p, key, blocking, course);
    Ends(c, run, actions, a, b, p, Del(key, blocking));
    forall s, s', action, course | StepInside(c, s, s', action) && soFar(s, course)
      ensures soFar(s', Met(course, p, action))
    {
      DelKeeps(c, run[a], s, s', p, action.proc, action.step, key, blocking, course);
    }
    Follow(c, run, actions, a, b, p, Del(key, blocking), soFar);
    RunOfIsRun(c, run, actions);
    ReachableInv(c, run, a);
    DelFinished(c, run[a], run[b], run[b + 1], p, key, blocking, CourseOf(actions[a + 1..b], p));
  }

  lemma DelFinished(c: Config, s0: State, s: State, s': State, p: Proc, key: string, blocking: bool, met: Course)
    requires Inv(c, s0) && DelSoFar(s0, s, p, key, blocking, met) && s.lock.pc.Finished? && s' == s.(lock := Free)
    ensures if Present(s0, key) && !met.refused && !met.undeletable then Deleted(s0, s', key)
            else Unaltered(s0, s', None)
    ensures |s'.files| == |s0.files| && HandlesKept(s0, s', None)
    ensures blocking ==> !met.refused
  {
    if Present(s0, key) && !met.refused && !met.undeletable {
      var ino: Ino :| Gone(s0, s, key, None, ino);
      assert Names(s0, key, ino) && LinksKept(s0, s', ino);
      NoneLeft(c, s0, s', key, ino);
    }
  }

  lemma NoneLeft(c: Config, s0: State, s: State, key: string, ino: Ino)
    requires Inv(c, s0) && Names(s0, key, ino) && |s.files| == |s0.files| && LinksKept(s0, s, ino)
    requires !s.files[ino].linked
    ensures !Present(s, key)
  {
    forall i: Ino
      ensures !Names(s, key, i)
    {
      assert Names(s, key, i) ==> Names(s0, key, i);
    }
  }

  // ---- get ----

  ghost predicate GetEnded(s0: State, s: State, p: Proc, key: string, kind: LockKind, course: Course) {
    if !Present(s0, key) then Unaltered(s0, s, None)
    else
      && course.descriptor.Some?
      && var h := course.descriptor.value;
      if h in course.closed then Unaltered(s0, s, None)
      else
        && Unaltered(s0, s, Some(h)) && Opened(s0, s, p, key, h)
        && s.handles[h].lock == if course.refused then None else Some(kind)
  }

  ghost predicate GetSoFar(s0: State, s: State, p: Proc, key: string, kind: LockKind, blocking: bool, course: Course) {
    && s.lock.In? && s.lock.proc == p && (blocking ==> !course.refused)
    && match s.lock.pc
       case Start(op) => op == Get(key, kind, blocking) && !course.refused && Unaltered(s0, s, None)
       case Locking(h, asked, waits, deleting) =>
         && !deleting && asked == kind && waits == blocking && !course.refused
         && course.descriptor == Some(h) && h !in course.closed
         && Opened(s0, s, p, key, h) && s.handles[h].lock == None && Unaltered(s0, s, Some(h))
       case Finished => GetEnded(s0, s, p, key, kind, course)
       case _ => false
  }

  lemma GetOwnKeeps(c: Config, s0: State, s: State, s': State, p: Proc, q: Proc, step: Step, key: string,
                    kind: LockKind, blocking: bool, course: Course)
    requires NextStep(c, s, s', q, step) && !Outside(step) && !step.Release?
    requires GetSoFar(s0, s, p, key, kind, blocking, course)
    ensures GetSoFar(s0, s', p, key, kind, blocking, Met(course, p, Action(q, step)))
  {
    GetSteps(c, s, s', q, step);
    if step.OpenMissing? || step.OpenExisting? {
      SamePresence(s0, s, key);
    } else if step.LockGranted? || step.LockRefused? {
      assert Present(s0, key);
    }
  }

  lemma GetSteps(c: Config, s: State, s': State, q: Proc, step: Step)
    requires NextStep(c, s, s', q, step) && s.lock.In?
    requires match s.lock.pc
             case Start(op) => op.Get?
             case Locking(_, _, _, deleting) => !deleting
             case pc => pc.Finished?
    ensures || Outside(step) || step.OpenMissing? || step.OpenExisting? || step.LockGranted? || step.LockRefused?
            || step.Release?
  {
  }

  lemma GetClosed(s0: State, s: State, s': State, q: Proc, p: Proc, key: string, kind: LockKind, course: Course, h: nat)
    requires GetEnded(s0, s, p, key, kind, course) && CloseItemStep(s, s', q, h)
    requires Present(s0, key) && course.descriptor == Some(h) && h !in course.closed
    ensures GetEnded(s0, s', p, key, kind, Met(course, p, Action(q, CloseItem(h))))
  {
    assert q == p;
  }

  lemma GetEndedOutside(c: Config, s0: State, s: State, s': State, p: Proc, q: Proc, step: Step, key: string,
                        kind: LockKind, course: Course)
    requires NextStep(c, s, s', q, step) && Outside(step) && GetEnded(s0, s, p, key, kind, course)
    ensures GetEnded(s0, s', p, key, kind, Met(course, p, Action(q, step)))
  {
    if !Present(s0, key) || course.descriptor.value in course.closed {
      OutsideKeeps(c, s0, s, s', q, step, None, -1);
    } else {
      var h := course.descriptor.value;
      if step == CloseItem(h) {
        GetClosed(s0, s, s', q, p, key, kind, course, h);
      } else {
        OutsideKeeps(c, s0, s, s', q, step, Some(h), -1);
      }
    }
  }

  lemma GetOutside(c: Config, s0: State, s: State, s': State, p: Proc, q: Proc, step: Step, key: string,
                   kind: LockKind, blocking: bool, course: Course)
    requires NextStep(c, s, s', q, step) && Outside(step) && GetSoFar(s0, s, p, key, kind, blocking, course)
    ensures GetSoFar(s0, s', p, key, kind, blocking, Met(course, p, Action(q, step)))
  {
    match s.lock.pc
    case Start(_) => OutsideKeeps(c, s0, s, s', q, step, None, -1);
    case Locking(h, _, _, _) => OpenedOutside(c, s0, s, s', p, q, step, key, h, -1);
    case Finished =>
      GetEndedOutside(c, s0, s, s', p, q, step, key, kind, course);
      assert s'.lock == s.lock;
    case _ =>
  }

  lemma GetKeeps(c: Config, s0: State, s: State, s': State, p: Proc, action: Action, key: string, kind: LockKind,
                 blocking: bool, course: Course)
    requires StepInside(c, s, s', action) && GetSoFar(s0, s, p, key, kind, blocking, course)
    ensures GetSoFar(s0, s', p, key, kind, blocking, Met(course, p, action))
  {
    if Outside(action.step) {
      GetOutside(c, s0, s, s', p, action.proc, action.step, key, kind, blocking, course);
    } else {
      GetOwnKeeps(c, s0, s, s', p, action.proc, action.step, key, kind, blocking, course);
    }
  }

  /** What the caller of `get` has afterwards: a descriptor of the file of the key, locked in the kind asked
      for. */
  ghost predicate Holds(s: State, p: Proc, key: string, kind: LockKind, h: nat) {
    h in s.handles && s.handles[h].owner == p && s.handles[h].lock == Some(kind) && Names(s, key, s.handles[h].ino)
  }

  /** `get`: unless there is no file under the key or its lock is refused, the caller holds the descriptor that
      was opened, unless it has closed it again. Nothing else changes, and a `get` that is ready to wait is
      not refused. */
  lemma GetHolds(c: Config, run: seq<State>, actions: seq<Action>, a: nat, b: nat, p: Proc, key: string,
                 kind: LockKind, blocking: bool)
    requires c.capacity < TWO_64 && Operation(c, run, actions, a, b, p, Get(key, kind, blocking))
    ensures var s, s', met := run[a], run[b + 1], CourseOf(actions[a + 1..b], p);
            && (Present(s, key) && !met.refused ==>
                  met.descriptor.Some?
                  && (met.descriptor.value !in met.closed ==> Holds(s', p, key, kind, met.descriptor.value)))
            && (Unaltered(s, s', None) || (Present(s, key) && Unaltered(s, s', met.descriptor)))
            && (blocking ==> !met.refused)
  {
    var soFar := (s: State, course: Course) => GetSoFar(run[a], s, p, key, kind, blocking, course);
    Ends(c, run, actions, a, b, p, Get(key, kind, blocking));
    forall s, s', action, course | StepInside(c, s, s', action) && soFar(s, course)
      ensures soFar(s', Met(course, p, action))
    {
      GetKeeps(c, run[a], s, s', p, action, key, kind, blocking, course);
    }
    Follow(c, run, actions, a, b, p, Get(key, kind, blocking), soFar);
    SamePresence(run[a], run[b + 1], key);
  }
}
