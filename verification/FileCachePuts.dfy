/** What a whole `put` does, in each of its three forms, and the destructor of a PutItem. */
module FileCachePuts {
  import opened Options
  import opened FileCache
  import opened FileCacheInvariant
  import opened FileCacheSteps
  import opened FileCacheTheorems
  import opened FileCacheOperations

  // ---- put and put_data ----

  /** There is one more file, the last, of that key and size; nothing else is changed. */
  ghost predicate Added(s0: State, s: State, key: string, size: nat, h: Option<nat>) {
    && |s.files| == |s0.files| + 1 && LinksKept(s0, s, -1) && SizesKept(s0, s) && HandlesKept(s0, s, h)
    && var f := s.files[|s0.files|];
    f.key == key && f.linked && f.size == size
  }

  ghost predicate PutEnded(s0: State, s: State, key: string, course: Course, h: Option<nat>) {
    if Present(s0, key) then Unaltered(s0, s, h)
    else
      && Added(s0, s, key, course.written, h) && s.files[|s0.files|].counted
      && s.recorded == s0.recorded + course.written
  }

  /** `put` is filling the new file through its descriptor `h`. */
  ghost predicate Filling(s0: State, s: State, key: string, course: Course, h: nat) {
    && !Present(s0, key) && !course.unreadable && Added(s0, s, key, course.written, Some(h))
    && s.handles[h].ino == |s0.files| && !s.handles[h].isPut && s.recorded == s0.recorded
  }

  ghost predicate PutSoFar(s0: State, s: State, p: Proc, key: string, course: Course) {
    && s.lock.In? && s.lock.proc == p
    && match s.lock.pc
       case Start(op) =>
         op == Put(key) && course.written == 0 && !course.unreadable && Unaltered(s0, s, None)
       case Writing(h) => Filling(s0, s, key, course, h)
       case Adding(h, sum) => Filling(s0, s, key, course, h) && sum == s0.recorded + course.written
       case Closing(h) => h in s.handles && PutEnded(s0, s, key, course, Some(h))
       case Finished => PutEnded(s0, s, key, course, None)
       case _ => false
  }

  /** What other processes do meanwhile changes none of that: their PutItems have other files. */
  lemma AddedOutside(c: Config, s0: State, s: State, s': State, q: Proc, step: Step, key: string, size: nat,
                     h: Option<nat>)
    requires HandlesFit(s0) && NextStep(c, s, s', q, step) && Outside(step) && Added(s0, s, key, size, h)
    requires h.Some? ==> step != CloseItem(h.value) && !s.handles[h.value].isPut
    ensures Added(s0, s', key, size, h) && s'.lock == s.lock && s'.recorded == s.recorded
    ensures s'.files[|s0.files|].counted == s.files[|s0.files|].counted
    ensures h.Some? ==> s'.handles[h.value] == s.handles[h.value]
  {
    if step.WriteItem? {
      WriteKeepsSizes(c, s0, s, s', q, step.h, step.n, h);
      assert step.h in s0.handles && s.handles[step.h] == s0.handles[step.h];
    }
  }

  lemma PutEndedOutside(c: Config, s0: State, s: State, s': State, q: Proc, step: Step, key: string, course: Course,
                        h: Option<nat>)
    requires HandlesFit(s0) && NextStep(c, s, s', q, step) && Outside(step) && PutEnded(s0, s, key, course, h)
    requires h.Some? ==> step != CloseItem(h.value) && !s.handles[h.value].isPut
    ensures PutEnded(s0, s', key, course, h) && s'.lock == s.lock
  {
    if Present(s0, key) {
      OutsideKeeps(c, s0, s, s', q, step, h, -1);
    } else {
      AddedOutside(c, s0, s, s', q, step, key, course.written, h);
    }
  }

  lemma PutOutside(c: Config, s0: State, s: State, s': State, p: Proc, q: Proc, step: Step, key: string,
                   course: Course)
    requires HandlesFit(s0) && NextStep(c, s, s', q, step) && Outside(step) && PutSoFar(s0, s, p, key, course)
    requires s.lock.pc.Closing? ==> !s.handles[s.lock.pc.h].isPut
    ensures PutSoFar(s0, s', p, key, course)
  {
    match s.lock.pc
    case Start(_) => OutsideKeeps(c, s0, s, s', q, step, None, -1);
    case Writing(h) => AddedOutside(c, s0, s, s', q, step, key, course.written, Some(h));
    case Adding(h, _) => AddedOutside(c, s0, s, s', q, step, key, course.written, Some(h));
    case Closing(h) => PutEndedOutside(c, s0, s, s', q, step, key, course, Some(h));
    case Finished => PutEndedOutside(c, s0, s, s', q, step, key, course, None);
    case _ =>
  }

  predicate PutStep(step: Step) {
    || step.CreateRefused? || step.Create? || step.PutWrite? || step.PutGiveUp? || step.AddSize? || step.RecordSum?
    || step.CloseOwn?
  }

  predicate PutPc(pc: PC) {
    match pc
    case Start(op) => op.Put?
    case _ => pc.Writing? || pc.Adding? || pc.Closing? || pc.Finished?
  }

  /** No other step can be taken inside a `put`. */
  lemma PutSteps(c: Config, s: State, s': State, q: Proc, step: Step)
    requires NextStep(c, s, s', q, step) && s.lock.In? && PutPc(s.lock.pc)
    ensures Outside(step) || PutStep(step) || step.Release?
  {
  }

  lemma PutOnlyPc(s0: State, s: State, p: Proc, key: string, course: Course, more: Course)
    requires PutSoFar(s0, s, p, key, course)
    ensures s.lock.In? && PutPc(s.lock.pc)
    ensures more.written == course.written && more.unreadable == course.unreadable ==> PutSoFar(s0, s, p, key, more)
  {
  }

  lemma PutCreates(c: Config, s0: State, s: State, s': State, p: Proc, q: Proc, step: Step, key: string,
                   course: Course)
    requires NextStep(c, s, s', q, step) && PutSoFar(s0, s, p, key, course)
    requires step.CreateRefused? || step.Create?
    ensures PutSoFar(s0, s', p, key, Met(course, p, Action(q, step)))
  {
    SamePresence(s0, s, key);
  }

  lemma PutWrites(c: Config, s0: State, s: State, s': State, p: Proc, q: Proc, n: nat, key: string, course: Course)
    requires PutWriteStep(c, s, s', q, n) && PutSoFar(s0, s, p, key, course)
    ensures PutSoFar(s0, s', p, key, Met(course, p, Action(q, PutWrite(n))))
  {
  }

  lemma PutGivesUp(c: Config, s0: State, s: State, s': State, p: Proc, q: Proc, key: string, course: Course)
    requires PutGiveUpStep(s, s', q) && PutSoFar(s0, s, p, key, course)
    ensures PutSoFar(s0, s', p, key, Met(course, p, Action(q, PutGiveUp)))
  {
  }

  lemma PutAdds(c: Config, s0: State, s: State, s': State, p: Proc, q: Proc, key: string, course: Course)
    requires Inv(c, s) && AddSizeStep(s, s', q) && PutSoFar(s0, s, p, key, course)
    ensures PutSoFar(s0, s', p, key, course)
  {
    AddSizeExact(c, s, s', q);
  }

  /** The sum does not wrap around. */
  lemma AddSizeExact(c: Config, s: State, s': State, q: Proc)
    requires Inv(c, s) && AddSizeStep(s, s', q)
    ensures HasHandle(s, s'.lock.pc.h) && s'.lock.pc.sum == s.recorded + FileOf(s, s'.lock.pc.h).size
  {
    StepKeeps(c, s, s', q, AddSize);
  }

  lemma PutRecords(c: Config, s0: State, s: State, s': State, p: Proc, q: Proc, key: string, course: Course)
    requires RecordSumStep(s, s', q) && PutSoFar(s0, s, p, key, course)
    ensures PutSoFar(s0, s', p, key, course)
  {
  }

  lemma PutCloses(c: Config, s0: State, s: State, s': State, p: Proc, q: Proc, key: string, course: Course)
    requires CloseOwnStep(s, s', q) && PutSoFar(s0, s, p, key, course)
    ensures PutSoFar(s0, s', p, key, course)
  {
  }

  lemma PutFillKeeps(c: Config, s0: State, s: State, s': State, p: Proc, q: Proc, step: Step, key: string,
                     course: Course)
    requires NextStep(c, s, s', q, step) && PutSoFar(s0, s, p, key, course)
    requires step.CreateRefused? || step.Create? || step.PutWrite? || step.PutGiveUp?
    ensures PutSoFar(s0, s', p, key, Met(course, p, Action(q, step)))
  {
    if step.PutWrite? {
      PutWrites(c, s0, s, s', p, q, step.n, key, course);
    } else if step.PutGiveUp? {
      PutGivesUp(c, s0, s, s', p, q, key, course);
    } else {
      PutCreates(c, s0, s, s', p, q, step, key, course);
    }
  }

  lemma PutOwnKeeps(c: Config, s0: State, s: State, s': State, p: Proc, q: Proc, step: Step, key: string,
                    course: Course)
    requires Inv(c, s) && NextStep(c, s, s', q, step) && PutStep(step) && PutSoFar(s0, s, p, key, course)
    ensures PutSoFar(s0, s', p, key, Met(course, p, Action(q, step)))
  {
    if step.AddSize? {
      PutAdds(c, s0, s, s', p, q, key, course);
    } else if step.RecordSum? {
      PutRecords(c, s0, s, s', p, q, key, course);
    } else if step.CloseOwn? {
      PutCloses(c, s0, s, s', p, q, key, course);
    } else {
      PutFillKeeps(c, s0, s, s', p, q, step, key, course);
    }
  }

  lemma PutOutsideKeeps(c: Config, s0: State, s: State, s': State, p: Proc, q: Proc, step: Step, key: string,
                        course: Course)
    requires HandlesFit(s0) && Inv(c, s) && NextStep(c, s, s', q, step) && Outside(step)
    requires PutSoFar(s0, s, p, key, course)
    ensures PutSoFar(s0, s', p, key, Met(course, p, Action(q, step)))
  {
    ClosingIsItem(c, s);
    PutOutside(c, s0, s, s', p, q, step, key, course);
    PutOnlyPc(s0, s', p, key, course, Met(course, p, Action(q, step)));
  }

  lemma PutKeeps(c: Config, s0: State, s: State, s': State, p: Proc, action: Action, key: string, course: Course)
    requires HandlesFit(s0) && StepInside(c, s, s', action) && PutSoFar(s0, s, p, key, course)
    ensures PutSoFar(s0, s', p, key, Met(course, p, action))
  {
    PutOnlyPc(s0, s, p, key, course, course);
    PutSteps(c, s, s', action.proc, action.step);
    if Outside(action.step) {
      PutOutsideKeeps(c, s0, s, s', p, action.proc, action.step, key, course);
    } else {
      PutOwnKeeps(c, s0, s, s', p, action.proc, action.step, key, course);
    }
  }

  lemma FitsBefore(c: Config, run: seq<State>, actions: seq<Action>, a: nat)
    requires c.capacity < TWO_64 && IsRunOf(c, run, actions) && a < |run|
    ensures Inv(c, run[a]) && HandlesFit(run[a])
  {
    RunOfIsRun(c, run, actions);
    ReachableInv(c, run, a);
  }

  /** `put` and `put_data`: of a key that has a file, nothing is changed; otherwise there is one more file, of
      that key and as long as what was written, it is counted, and the recorded size has grown by as much.
      No descriptor is left open. */
  lemma PutAddsFile(c: Config, run: seq<State>, actions: seq<Action>, a: nat, b: nat, p: Proc, key: string)
    requires c.capacity < TWO_64 && Operation(c, run, actions, a, b, p, Put(key))
    ensures var s, s', met := run[a], run[b + 1], CourseOf(actions[a + 1..b], p);
            && Present(s', key)
            && if Present(s, key) then Unaltered(s, s', None)
               else
                 && Added(s, s', key, met.written, None) && s'.files[|s.files|].counted
                 && s'.recorded == s.recorded + met.written
  {
    var soFar := (s: State, course: Course) => PutSoFar(run[a], s, p, key, course);
    Ends(c, run, actions, a, b, p, Put(key));
    FitsBefore(c, run, actions, a);
    forall s, s', action, course | StepInside(c, s, s', action) && soFar(s, course)
      ensures soFar(s', Met(course, p, action))
    {
      PutKeeps(c, run[a], s, s', p, action, key, course);
    }
    Follow(c, run, actions, a, b, p, Put(key), soFar);
    if Present(run[a], key) {
      SamePresence(run[a], run[b + 1], key);
    } else {
      assert Names(run[b + 1], key, |run[a].files|);
    }
  }

  // ---- put with a PutItem ----

  /** The caller has an open PutItem for the new file. */
  ghost predicate Handed(s0: State, s: State, p: Proc, key: string, h: nat) {
    && !Present(s0, key) && |s.files| == |s0.files| + 1 && LinksKept(s0, s, -1) && SizesKept(s0, s)
    && HandlesKept(s0, s, Some(h)) && s.recorded == s0.recorded
    && s.handles[h] == Handle(p, |s0.files|, Some(Exclusive), true, false)
    && s.files[|s0.files|].key == key && s.files[|s0.files|].linked
  }

  ghost predicate OpenPutSoFar(s0: State, s: State, p: Proc, key: string, course: Course) {
    && s.lock.In? && s.lock.proc == p
    && match s.lock.pc
       case Start(op) => op == OpenPut(key) && Unaltered(s0, s, None)
       case Finished =>
         if Present(s0, key) then Unaltered(s0, s, None)
         else course.descriptor.Some? && Handed(s0, s, p, key, course.descriptor.value)
       case _ => false
  }

  lemma HandedOutside(c: Config, s0: State, s: State, s': State, p: Proc, q: Proc, step: Step, key: string, h: nat)
    requires HandlesFit(s0) && NextStep(c, s, s', q, step) && Outside(step) && Handed(s0, s, p, key, h)
    ensures Handed(s0, s', p, key, h) && s'.lock == s.lock
  {
    if step.WriteItem? && step.h != h {
      assert step.h in s0.handles && s0.handles[step.h] == s.handles[step.h];
      assert HeldByPutItem(s0, s.handles[step.h].ino);
    }
  }

  lemma OpenPutOutside(c: Config, s0: State, s: State, s': State, p: Proc, q: Proc, step: Step, key: string,
                       course: Course)
    requires HandlesFit(s0) && NextStep(c, s, s', q, step) && Outside(step) && OpenPutSoFar(s0, s, p, key, course)
    ensures OpenPutSoFar(s0, s', p, key, Met(course, p, Action(q, step)))
  {
    if s.lock.pc.Finished? && !Present(s0, key) {
      HandedOutside(c, s0, s, s', p, q, step, key, course.descriptor.value);
    } else {
      OutsideKeeps(c, s0, s, s', q, step, None, -1);
    }
  }

  lemma OpenPutOwn(c: Config, s0: State, s: State, s': State, p: Proc, q: Proc, step: Step, key: string,
                   course: Course)
    requires NextStep(c, s, s', q, step) && !Outside(step) && !step.Release? && OpenPutSoFar(s0, s, p, key, course)
    ensures OpenPutSoFar(s0, s', p, key, Met(course, p, Action(q, step)))
  {
    OpenPutSteps(c, s, s', q, step);
    SamePresence(s0, s, key);
  }

  lemma OpenPutSteps(c: Config, s: State, s': State, q: Proc, step: Step)
    requires NextStep(c, s, s', q, step) && s.lock.In?
    requires s.lock.pc.Finished? || (s.lock.pc.Start? && s.lock.pc.op.OpenPut?)
    ensures Outside(step) || step.CreateRefused? || step.Create? || step.Release?
  {
  }

  lemma OpenPutKeeps(c: Config, s0: State, s: State, s': State, p: Proc, action: Action, key: string, course: Course)
    requires HandlesFit(s0) && StepInside(c, s, s', action) && OpenPutSoFar(s0, s, p, key, course)
    ensures OpenPutSoFar(s0, s', p, key, Met(course, p, action))
  {
    if Outside(action.step) {
      OpenPutOutside(c, s0, s, s', p, action.proc, action.step, key, course);
    } else {
      OpenPutOwn(c, s0, s, s', p, action.proc, action.step, key, course);
    }
  }

  /** `put` with a PutItem: of a key that has a file, nothing is changed; otherwise the caller holds the
      descriptor of a new file of that key, locked exclusively, and nothing has been recorded. */
  lemma OpenPutHandsOver(c: Config, run: seq<State>, actions: seq<Action>, a: nat, b: nat, p: Proc, key: string)
    requires c.capacity < TWO_64 && Operation(c, run, actions, a, b, p, OpenPut(key))
    ensures var s, s', met := run[a], run[b + 1], CourseOf(actions[a + 1..b], p);
            && Present(s', key)
            && if Present(s, key) then Unaltered(s, s', None)
               else met.descriptor.Some? && Handed(s, s', p, key, met.descriptor.value)
  {
    var soFar := (s: State, course: Course) => OpenPutSoFar(run[a], s, p, key, course);
    Ends(c, run, actions, a, b, p, OpenPut(key));
    FitsBefore(c, run, actions, a);
    forall s, s', action, course | StepInside(c, s, s', action) && soFar(s, course)
      ensures soFar(s', Met(course, p, action))
    {
      OpenPutKeeps(c, run[a], s, s', p, action, key, course);
    }
    Follow(c, run, actions, a, b, p, OpenPut(key), soFar);
    if Present(run[a], key) {
      SamePresence(run[a], run[b + 1], key);
    } else {
      assert Names(run[b + 1], key, |run[a].files|);
    }
  }

  // ---- ~PutItem ----

  /** All but the PutItem `h` and its file are as they were, and that file is as long. */
  ghost predicate OthersKept(s0: State, s: State, h: nat) {
    && |s.files| == |s0.files| && LinksKept(s0, s, -1) && SizesKept(s0, s)
    && (forall g :: g in s.handles && g != h ==> g in s0.handles && s.handles[g] == s0.handles[g])
    && (forall g :: g in s0.handles && g != h && s0.handles[g].isPut && !s0.handles[g].committed ==>
          g in s.handles && s.handles[g] == s0.handles[g])
    && HasHandle(s0, h)
    && s.files[s0.handles[h].ino].size == s0.files[s0.handles[h].ino].size
  }

  ghost predicate CommitEnded(s0: State, s: State, h: nat, course: Course) {
    && OthersKept(s0, s, h) && s.files[s0.handles[h].ino].counted
    && s.recorded == s0.recorded + s0.files[s0.handles[h].ino].size
    && if h in course.closed then h !in s.handles
       else h in s.handles && s.handles[h] == s0.handles[h].(committed := true)
  }

  ghost predicate CommitSoFar(s0: State, s: State, p: Proc, h: nat, course: Course) {
    && s.lock.In? && s.lock.proc == p
    && match s.lock.pc
       case Start(op) =>
         && op == Commit(h) && OthersKept(s0, s, h) && h in s.handles && s.handles[h] == s0.handles[h]
         && s.handles[h].isPut && s.recorded == s0.recorded && h !in course.closed
       case Adding(g, sum) =>
         && g == h && OthersKept(s0, s, h) && h in s.handles && s.handles[h] == s0.handles[h]
         && s.handles[h].isPut && sum == s0.recorded + s0.files[s0.handles[h].ino].size && h !in course.closed
       case Finished => CommitEnded(s0, s, h, course)
       case _ => false
  }

  /** A PutItem that is being written has its file for itself, and that is not counted. */
  lemma WriterAlone(c: Config, s: State, g: nat, h: nat)
    requires Inv(c, s) && g in s.handles && s.handles[g].isPut && !s.handles[g].committed && HasHandle(s, h)
    requires g != h && s.handles[h].lock == Some(Exclusive)
    ensures s.handles[g].ino != s.handles[h].ino
  {
    assert Uncommitted(s, g);
  }

  lemma WriterUncounted(c: Config, s: State, g: nat)
    requires Inv(c, s) && g in s.handles && s.handles[g].isPut && !s.handles[g].committed
    ensures HasHandle(s, g) && !FileOf(s, g).counted
  {
    assert Uncommitted(s, g);
  }

  /** The PutItem that is being committed has its file locked. */
  lemma CommitterHolds(c: Config, s: State, h: nat)
    requires Inv(c, s) && Busy(s) == Some(h) && (s.lock.pc == Start(Commit(h)) || s.lock.pc.Adding?)
    ensures HasHandle(s, h) && s.handles[h].lock == Some(Exclusive)
  {
    assert Uncommitted(s, h);
  }

  lemma OthersOutside(c: Config, s0: State, s: State, s': State, q: Proc, step: Step, h: nat)
    requires NextStep(c, s, s', q, step) && Outside(step) && OthersKept(s0, s, h)
    requires step.WriteItem? ==> step.h != h && s.handles[step.h].ino != s0.handles[h].ino
    ensures OthersKept(s0, s', h) && s'.lock == s.lock && s'.recorded == s.recorded
    ensures s'.files[s0.handles[h].ino].counted == s.files[s0.handles[h].ino].counted
    ensures h in s.handles && step != CloseItem(h) ==> h in s'.handles && s'.handles[h] == s.handles[h]
  {
    if step.WriteItem? {
      assert step.h in s0.handles && s0.handles[step.h] == s.handles[step.h];
      assert HeldByPutItem(s0, s.handles[step.h].ino);
    }
  }

  /** Nobody writes to the file whose PutItem is being committed, or has been. */
  lemma NotWritten(c: Config, s0: State, s: State, s': State, p: Proc, q: Proc, step: Step, h: nat, course: Course)
    requires Inv(c, s) && NextStep(c, s, s', q, step) && step.WriteItem? && CommitSoFar(s0, s, p, h, course)
    ensures step.h != h && s.handles[step.h].ino != s0.handles[h].ino
  {
    if s.lock.pc.Finished? {
      WriterUncounted(c, s, step.h);
    } else {
      CommitterHolds(c, s, h);
      WriterAlone(c, s, step.h, h);
    }
  }

  lemma CommitEndedOutside(c: Config, s0: State, s: State, s': State, p: Proc, q: Proc, step: Step, h: nat,
                           course: Course)
    requires NextStep(c, s, s', q, step) && Outside(step) && CommitEnded(s0, s, h, course)
    requires step.WriteItem? ==> step.h != h && s.handles[step.h].ino != s0.handles[h].ino
    requires s0.handles[h].owner == p
    ensures CommitEnded(s0, s', h, Met(course, p, Action(q, step)))
  {
    OthersOutside(c, s0, s, s', q, step, h);
  }

  lemma CommitOutside(c: Config, s0: State, s: State, s': State, p: Proc, q: Proc, step: Step, h: nat, course: Course)
    requires NextStep(c, s, s', q, step) && Outside(step) && CommitSoFar(s0, s, p, h, course)
    requires step.WriteItem? ==> step.h != h && s.handles[step.h].ino != s0.handles[h].ino
    requires s0.handles[h].owner == p
    ensures CommitSoFar(s0, s', p, h, Met(course, p, Action(q, step)))
  {
    OthersOutside(c, s0, s, s', q, step, h);
    if s.lock.pc.Finished? {
      CommitEndedOutside(c, s0, s, s', p, q, step, h, course);
    }
  }

  lemma CommitAdds(c: Config, s0: State, s: State, s': State, p: Proc, q: Proc, h: nat, course: Course)
    requires Inv(c, s) && AddSizeStep(s, s', q) && CommitSoFar(s0, s, p, h, course)
    ensures CommitSoFar(s0, s', p, h, course)
  {
    AddSizeExact(c, s, s', q);
  }

  lemma CommitRecords(c: Config, s0: State, s: State, s': State, p: Proc, q: Proc, h: nat, course: Course)
    requires RecordSumStep(s, s', q) && CommitSoFar(s0, s, p, h, course)
    ensures CommitSoFar(s0, s', p, h, course)
  {
  }

  lemma CommitSteps(c: Config, s: State, s': State, q: Proc, step: Step)
    requires NextStep(c, s, s', q, step) && s.lock.In?
    requires s.lock.pc.Finished? || s.lock.pc.Adding? || (s.lock.pc.Start? && s.lock.pc.op.Commit?)
    ensures Outside(step) || step.AddSize? || step.RecordSum? || step.Release?
  {
  }

  lemma CommitKeeps(c: Config, s0: State, s: State, s': State, p: Proc, action: Action, h: nat, course: Course)
    requires StepInside(c, s, s', action) && CommitSoFar(s0, s, p, h, course)
    requires s0.handles[h].owner == p
    ensures CommitSoFar(s0, s', p, h, Met(course, p, action))
  {
    CommitSteps(c, s, s', action.proc, action.step);
    if Outside(action.step) {
      if action.step.WriteItem? {
        NotWritten(c, s0, s, s', p, action.proc, action.step, h, course);
      }
      CommitOutside(c, s0, s, s', p, action.proc, action.step, h, course);
    } else if action.step.AddSize? {
      CommitAdds(c, s0, s, s', p, action.proc, h, course);
    } else {
      CommitRecords(c, s0, s, s', p, action.proc, h, course);
    }
  }

  /** The destructor of a PutItem: its file is counted, the recorded size has grown by as much as that file is
      long, and nothing else is changed. */
  lemma CommitCounts(c: Config, run: seq<State>, actions: seq<Action>, a: nat, b: nat, p: Proc, h: nat)
    requires c.capacity < TWO_64 && Operation(c, run, actions, a, b, p, Commit(h))
    ensures h in run[a].handles && run[a].handles[h].owner == p && run[a].handles[h].isPut
    ensures CommitEnded(run[a], run[b + 1], h, CourseOf(actions[a + 1..b], p))
  {
    var soFar := (s: State, course: Course) => CommitSoFar(run[a], s, p, h, course);
    Ends(c, run, actions, a, b, p, Commit(h));
    FitsBefore(c, run, actions, a);
    assert NextStep(c, run[a], run[a + 1], actions[a].proc, actions[a].step);
    forall s, s', action, course | StepInside(c, s, s', action) && soFar(s, course)
      ensures soFar(s', Met(course, p, action))
    {
      CommitKeeps(c, run[a], s, s', p, action, h, course);
    }
    Follow(c, run, actions, a, b, p, Commit(h), soFar);
  }
}
