/** `clear` of the file cache: it removes every file without asking for its lock and without touching
    the recorded size. When the recorded size is right afterwards, and goes on being right. */
module FileCacheClear {
  import opened Options
  import opened FileCache
  import opened FileCacheInvariant
  import opened FileCacheSteps
  import opened FileCacheTheorems

  // ---- Steps ----

  ghost predicate ClearListStep(s: State, s': State, p: Proc, listing: seq<Ino>) {
    At(s, p, Start(Clear)) && IsListing(s, listing) && s' == Move(s, p, Clearing(listing))
  }

  ghost predicate ClearRemoveStep(s: State, s': State, p: Proc) {
    && s.lock.In? && s.lock.proc == p && s.lock.pc.Clearing? && s.lock.pc.left != []
    && var ino := s.lock.pc.left[0];
    && ino < |s.files|
    && s' == Move(WithFile(s, ino, s.files[ino].(linked := false)), p, Clearing(s.lock.pc.left[1..]))
  }

  ghost predicate ClearFinishStep(s: State, s': State, p: Proc) {
    At(s, p, Clearing([])) && s' == Move(s, p, Finished)
  }

  ghost predicate ClearStep(s: State, s': State, p: Proc) {
    || (exists listing :: ClearListStep(s, s', p, listing))
    || ClearRemoveStep(s, s', p)
    || ClearFinishStep(s, s', p)
  }

  ghost predicate InClear(s: State, p: Proc) {
    s.lock.In? && s.lock.proc == p && (s.lock.pc == Start(Clear) || s.lock.pc.Clearing?)
  }

  ghost predicate NextInClear(c: Config, s: State, s': State, p: Proc) {
    InClear(s, p) && (Next(c, s, s') || ClearStep(s, s', p))
  }

  /** A whole `clear`, from the moment when it has the cache lock, among the steps of other processes. */
  ghost predicate Clears(c: Config, clearing: seq<State>, p: Proc) {
    && clearing != [] && At(clearing[0], p, Start(Clear)) && At(clearing[|clearing| - 1], p, Finished)
    && forall i :: 0 <= i < |clearing| - 1 ==> NextInClear(c, clearing[i], clearing[i + 1], p)
  }

  ghost predicate Conserved(s: State) { s.recorded == SettledBytes(s, |s.files|) }

  /** From here on, up to the next `clear`, the recorded size is right whenever nobody is inside the
      cache lock. */
  ghost predicate StaysConserved(c: Config, s: State) {
    forall trace: seq<State> :: IsTrace(c, trace) && trace[0] == s && trace[|trace| - 1].lock.Free? ==>
      Conserved(trace[|trace| - 1])
  }

  /** A PutItem whose destructor has not run. */
  ghost predicate OpenPutItem(s: State, h: nat) {
    HasHandle(s, h) && s.handles[h].isPut && !s.handles[h].committed
  }

  // ---- What a clear keeps ----

  ghost predicate NoFiles(s: State) { forall ino :: 0 <= ino < |s.files| ==> !s.files[ino].linked }

  /** The PutItems of one state are those of the other. */
  ghost predicate SamePutItems(s: State, s': State) {
    forall h :: OpenPutItem(s', h) <==> OpenPutItem(s, h)
  }

  /** During a clear: the recorded size and the PutItems are those of its start, and only files of the
      listing are still there. */
  ghost predicate ClearGoes(start: State, s: State) {
    && s.recorded == start.recorded && SamePutItems(start, s) && s.lock.In?
    && (s.lock.pc.Clearing? ==> forall ino :: 0 <= ino < |s.files| && s.files[ino].linked ==> ino in s.lock.pc.left)
    && (s.lock.pc.Finished? ==> NoFiles(s))
  }

  /** While a process clears, the others can only close, write and read their items. */
  lemma OnlyItemSteps(c: Config, s: State, s': State, p: Proc, q: Proc, step: Step)
    requires InClear(s, p) && NextStep(c, s, s', q, step)
    ensures step.CloseItem? || step.WriteItem? || step.ReadItem?
  {
  }

  lemma ItemStepKeepsClear(c: Config, start: State, s: State, s': State, p: Proc, q: Proc, step: Step)
    requires InClear(s, p) && NextStep(c, s, s', q, step) && ClearGoes(start, s)
    ensures ClearGoes(start, s') && InClear(s', p)
  {
    OnlyItemSteps(c, s, s', p, q, step);
  }

  lemma ClearStepKeepsClear(start: State, s: State, s': State, p: Proc)
    requires InClear(s, p) && ClearStep(s, s', p) && ClearGoes(start, s)
    ensures ClearGoes(start, s') && (InClear(s', p) || At(s', p, Finished))
  {
    if ClearRemoveStep(s, s', p) {
      assert s.lock.pc.left == [s.lock.pc.left[0]] + s.lock.pc.left[1..];
    }
  }

  lemma {:induction false} ClearGoesOn(c: Config, clearing: seq<State>, p: Proc, i: nat)
    requires Clears(c, clearing, p) && i < |clearing|
    ensures ClearGoes(clearing[0], clearing[i])
  {
    if i > 0 {
      ClearGoesOn(c, clearing, p, i - 1);
      var s, s' := clearing[i - 1], clearing[i];
      assert NextInClear(c, clearing[i - 1], clearing[i - 1 + 1], p);
      if Next(c, s, s') {
        var q, step :| NextStep(c, s, s', q, step);
        ItemStepKeepsClear(c, clearing[0], s, s', p, q, step);
      } else {
        ClearStepKeepsClear(clearing[0], s, s', p);
      }
    }
  }

  lemma {:induction false} NothingSettled(s: State, n: nat)
    requires n <= |s.files|
    requires forall ino :: 0 <= ino < n ==> !s.files[ino].linked || s.files[ino].size == 0
    ensures SettledBytes(s, n) == 0
  {
    if n > 0 {
      NothingSettled(s, n - 1);
    }
  }

  lemma {:induction false} NothingLinked(files: seq<File>)
    requires forall ino :: 0 <= ino < |files| ==> !files[ino].linked
    ensures LinkedBytes(files) == 0
  {
    if files != [] {
      NothingLinked(files[..|files| - 1]);
    }
  }

  /** A clear removes every file, whoever has it locked. */
  lemma ClearRemovesAll(c: Config, clearing: seq<State>, p: Proc)
    requires Clears(c, clearing, p)
    ensures NoFiles(clearing[|clearing| - 1])
  {
    ClearGoesOn(c, clearing, p, |clearing| - 1);
  }

  // ---- Why the conditions are needed ----

  /** A recorded size that is not zero is wrong as soon as the clear has released the cache lock. */
  lemma RecordedSizeStays(c: Config, s: State, p: Proc)
    requires At(s, p, Finished) && NoFiles(s) && s.recorded != 0
    ensures !StaysConserved(c, s)
  {
    var released := s.(lock := Free);
    Took(c, s, released, p, Release);
    NothingSettled(released, |released.files|);
    var trace := [s, released];
    assert IsTrace(c, trace) && trace[|trace| - 1] == released;
  }

  /** The file of the PutItem, after one more write. */
  function Longer(s: State, h: nat, n: nat): State
    requires HasHandle(s, h)
  {
    WithFile(s, s.handles[h].ino, FileOf(s, h).(size := FileOf(s, h).size + n))
  }

  /** The last two steps of the destructor of a PutItem. */
  lemma CommitAdds(c: Config, s: State, q: Proc, h: nat) returns (end: seq<State>)
    requires OpenPutItem(s, h) && s.handles[h].owner == q && s.lock.Free? && NoFiles(s)
    ensures IsTrace(c, end) && end[0] == s && end[|end| - 1].lock.Free? && NoFiles(end[|end| - 1])
    ensures end[|end| - 1].recorded == WrapAdd(s.recorded, FileOf(s, h).size)
  {
    var sum := WrapAdd(s.recorded, FileOf(s, h).size);
    var s1 := Move(s, q, Start(Commit(h)));
    Took(c, s, s1, q, Acquire(Commit(h)));
    var s2 := Move(s1, q, Adding(h, sum));
    Took(c, s1, s2, q, AddSize);
    var s3 := s2.(
      recorded := sum,
      files := s2.files[s2.handles[h].ino := FileOf(s2, h).(counted := true)],
      handles := s2.handles[h := s2.handles[h].(committed := true)],
      lock := In(q, Finished));
    Took(c, s2, s3, q, RecordSum);
    var s4 := s3.(lock := Free);
    Took(c, s3, s4, q, Release);
    end := [s, s1, s2, s3, s4];
  }

  /** The lock is released, and the PutItem is written to. */
  lemma WritesLater(c: Config, s: State, p: Proc, h: nat, n: nat) returns (longer: State)
    requires At(s, p, Finished) && NoFiles(s) && OpenPutItem(s, h) && n <= c.capacity
    ensures IsTrace(c, [s, s.(lock := Free), longer]) && longer == Longer(s.(lock := Free), h, n)
    ensures OpenPutItem(longer, h) && longer.lock.Free? && NoFiles(longer) && longer.recorded == s.recorded
    ensures longer.handles[h].owner == s.handles[h].owner && FileOf(longer, h).size == FileOf(s, h).size + n
  {
    var released := s.(lock := Free);
    Took(c, s, released, p, Release);
    longer := Longer(released, h, n);
    NothingLinked(released.files);
    Took(c, released, longer, s.handles[h].owner, WriteItem(h, n));
  }

  lemma WrongAtTheEnd(c: Config, s: State, trace: seq<State>)
    requires IsTrace(c, trace) && trace[0] == s && trace[|trace| - 1].lock.Free?
    requires NoFiles(trace[|trace| - 1]) && trace[|trace| - 1].recorded != 0
    ensures !StaysConserved(c, s)
  {
    var last := trace[|trace| - 1];
    NothingSettled(last, |last.files|);
    assert !Conserved(last);
  }

  /** A PutItem that is open during the clear adds the size of its file, which is gone, later on. */
  lemma OpenPutItemAddsLater(c: Config, s: State, p: Proc, h: nat)
    requires At(s, p, Finished) && NoFiles(s) && s.recorded == 0
    requires OpenPutItem(s, h) && c.capacity > 0
    ensures !StaysConserved(c, s)
  {
    var size := FileOf(s, h).size;
    var longer := WritesLater(c, s, p, h, if size % TWO_64 == 0 then 1 else 0);
    var end := CommitAdds(c, longer, s.handles[h].owner, h);
    NotMultiple(size);
    ThreeAndMore(c, s, s.(lock := Free), longer, end);
    WrongAtTheEnd(c, s, [s, s.(lock := Free)] + end);
  }

  lemma ThreeAndMore(c: Config, a: State, b: State, d: State, end: seq<State>)
    requires IsTrace(c, [a, b, d]) && IsTrace(c, end) && end[0] == d
    ensures IsTrace(c, [a, b] + end) && ([a, b] + end)[0] == a && ([a, b] + end)[|[a, b] + end| - 1] == end[|end| - 1]
  {
    var all := [a, b, d];
    assert Next(c, all[0], all[0 + 1]) && Next(c, all[1], all[1 + 1]);
    JoinTraces(c, [a, b], end);
  }

  lemma NotMultiple(size: nat)
    ensures (size + if size % TWO_64 == 0 then 1 else 0) % TWO_64 != 0
  {
  }

  // ---- Why they suffice ----

  lemma NoneUncommitted(c: Config, s: State)
    requires Inv(c, s) && (forall h :: !OpenPutItem(s, h)) && Creating(s.lock).None?
    ensures forall h :: !Uncommitted(s, h)
  {
    forall h
      ensures !Uncommitted(s, h)
    {
      assert !OpenPutItem(s, h);
    }
  }

  lemma RemoveKeepsInv(c: Config, s: State, s': State, p: Proc)
    requires Inv(c, s) && s.recorded == 0 && (forall h :: !OpenPutItem(s, h)) && ClearRemoveStep(s, s', p)
    ensures Inv(c, s')
  {
    var ino := s.lock.pc.left[0];
    NoneUncommitted(c, s);
    assert forall h :: !Uncommitted(s', h) by {
      assert forall h :: Uncommitted(s', h) ==> Uncommitted(s, h);
    }
    BytesUpdate(s.files, ino, s'.files[ino]);
    BytesBound(s.files, ino);
  }

  lemma ClearStepKeepsInv(c: Config, s: State, s': State, p: Proc)
    requires Inv(c, s) && s.recorded == 0 && (forall h :: !OpenPutItem(s, h)) && ClearStep(s, s', p)
    ensures Inv(c, s')
  {
    if ClearRemoveStep(s, s', p) {
      RemoveKeepsInv(c, s, s', p);
    } else {
      MoveKeeps(c, s, p, s'.lock.pc);
    }
  }

  lemma {:induction false} InvThroughClear(c: Config, clearing: seq<State>, p: Proc, i: nat)
    requires Clears(c, clearing, p) && i < |clearing|
    requires Inv(c, clearing[0]) && clearing[0].recorded == 0 && forall h :: !OpenPutItem(clearing[0], h)
    ensures Inv(c, clearing[i])
  {
    if i > 0 {
      InvThroughClear(c, clearing, p, i - 1);
      ClearGoesOn(c, clearing, p, i - 1);
      var s, s' := clearing[i - 1], clearing[i];
      assert NextInClear(c, clearing[i - 1], clearing[i - 1 + 1], p);
      if Next(c, s, s') {
        var q, step :| NextStep(c, s, s', q, step);
        StepKeeps(c, s, s', q, step);
      } else {
        ClearStepKeepsInv(c, s, s', p);
      }
    }
  }

  lemma {:induction false} InvThroughTrace(c: Config, trace: seq<State>, i: nat)
    requires IsTrace(c, trace) && Inv(c, trace[0]) && i < |trace|
    ensures Inv(c, trace[i])
  {
    if i > 0 {
      InvThroughTrace(c, trace, i - 1);
      assert Next(c, trace[i - 1], trace[i - 1 + 1]);
      var p, step :| NextStep(c, trace[i - 1], trace[i], p, step);
      StepKeeps(c, trace[i - 1], trace[i], p, step);
    }
  }

  lemma InvStaysConserved(c: Config, s: State)
    requires Inv(c, s)
    ensures StaysConserved(c, s)
  {
    forall trace: seq<State> | IsTrace(c, trace) && trace[0] == s && trace[|trace| - 1].lock.Free?
      ensures Conserved(trace[|trace| - 1])
    {
      var last := trace[|trace| - 1];
      InvThroughTrace(c, trace, |trace| - 1);
      SettledAreCounted(c, last, |last.files|);
      assert last.files[..|last.files|] == last.files;
    }
  }

  // ---- A disk with no room ----

  ghost predicate EmptyItems(items: seq<Item>) { forall x :: x in items ==> x.size == 0 }

  ghost predicate EmptyPc(pc: PC) {
    match pc
    case Adding(_, sum) => sum == 0
    case Sized(_, size) => size == 0
    case Unlinked(_, size) => size == 0
    case Scanning(ci, _, items) => ci == 0 && EmptyItems(items)
    case Looping(ci, items, _, removed) => ci == 0 && removed == 0 && EmptyItems(items)
    case Taking(ci, items, _, removed, _) => ci == 0 && removed == 0 && EmptyItems(items)
    case _ => true
  }

  /** All sizes are zero. */
  ghost predicate Empty(s: State) {
    && s.recorded == 0 && (forall ino :: 0 <= ino < |s.files| ==> s.files[ino].size == 0)
    && (s.lock.In? ==> EmptyPc(s.lock.pc))
  }

  lemma EmptyStep(c: Config, s: State, s': State, p: Proc, step: Step)
    requires c.capacity == 0 && Empty(s) && NextStep(c, s, s', p, step)
    ensures Empty(s')
  {
    match step
    case PurgeStat =>
      var ino := s.lock.pc.left[0];
      InsertAdds(s.lock.pc.items, Item(ino, s.files[ino].atime, s.files[ino].size));
    case PurgeRemove =>
      assert Current(s.lock.pc) in s.lock.pc.items;
    case _ =>
  }

  lemma {:induction false} EmptyThroughTrace(c: Config, trace: seq<State>, i: nat)
    requires c.capacity == 0 && IsTrace(c, trace) && Empty(trace[0]) && i < |trace|
    ensures Empty(trace[i])
  {
    if i > 0 {
      EmptyThroughTrace(c, trace, i - 1);
      assert Next(c, trace[i - 1], trace[i - 1 + 1]);
      var p, step :| NextStep(c, trace[i - 1], trace[i], p, step);
      EmptyStep(c, trace[i - 1], trace[i], p, step);
    }
  }

  lemma {:induction false} EmptyThroughClear(c: Config, clearing: seq<State>, p: Proc, i: nat)
    requires c.capacity == 0 && Clears(c, clearing, p) && Empty(clearing[0]) && i < |clearing|
    ensures Empty(clearing[i])
  {
    if i > 0 {
      EmptyThroughClear(c, clearing, p, i - 1);
      var s, s' := clearing[i - 1], clearing[i];
      assert NextInClear(c, clearing[i - 1], clearing[i - 1 + 1], p);
      if Next(c, s, s') {
        var q, step :| NextStep(c, s, s', q, step);
        EmptyStep(c, s, s', q, step);
      }
    }
  }

  lemma EmptyStaysConserved(c: Config, s: State)
    requires c.capacity == 0 && Empty(s)
    ensures StaysConserved(c, s)
  {
    forall trace: seq<State> | IsTrace(c, trace) && trace[0] == s && trace[|trace| - 1].lock.Free?
      ensures Conserved(trace[|trace| - 1])
    {
      var last := trace[|trace| - 1];
      EmptyThroughTrace(c, trace, |trace| - 1);
      NothingSettled(last, |last.files|);
    }
  }

  // ---- The exact condition ----

  /** Contrary to its comment, `clear` does not zero the recorded size. In every state from then on, up
      to the next clear, the recorded size is right whenever nobody is inside the cache lock, if and
      only if it was zero before and no PutItem was open (or the disk has no room for a byte). */
  lemma ClearConservesIff(c: Config, run: seq<State>, clearing: seq<State>, p: Proc)
    requires c.capacity < TWO_64 && IsRun(c, run) && Clears(c, clearing, p) && run[|run| - 1] == clearing[0]
    ensures var before, after := clearing[0], clearing[|clearing| - 1];
            StaysConserved(c, after)
            <==> before.recorded == 0 && (c.capacity == 0 || forall h :: !OpenPutItem(before, h))
  {
    var before, after := clearing[0], clearing[|clearing| - 1];
    ReachableInv(c, run, |run| - 1);
    ClearGoesOn(c, clearing, p, |clearing| - 1);
    if before.recorded != 0 {
      RecordedSizeStays(c, after, p);
    } else if c.capacity == 0 {
      EmptyThroughTrace(c, run, |run| - 1);
      EmptyThroughClear(c, clearing, p, |clearing| - 1);
      EmptyStaysConserved(c, after);
    } else if h :| OpenPutItem(before, h) {
      OpenPutItemAddsLater(c, after, p, h);
    } else {
      InvThroughClear(c, clearing, p, |clearing| - 1);
      InvStaysConserved(c, after);
    }
  }

  /** A step removes a file that a descriptor has locked, which is not the remover's own. */
  ghost predicate RemovesLocked(s: State, s': State, ino: Ino, h: nat) {
    && ino < |s.files| && ino < |s'.files| && s.files[ino].linked && !s'.files[ino].linked
    && h in s.handles && s.handles[h].ino == ino && s.handles[h].lock.Some? && Busy(s) != Some(h)
  }

  /** A recorded size of zero is not enough: here a PutItem of five bytes is open while another process
      clears the cache. The clear also removes its file, although the PutItem has it locked. */
  lemma ClearUnderPutItem(c: Config) returns (run: seq<State>, clearing: seq<State>)
    requires 5 <= c.capacity < TWO_64
    ensures IsRun(c, run) && Clears(c, clearing, 1) && run[|run| - 1] == clearing[0]
    ensures clearing[0].recorded == 0 && !StaysConserved(c, clearing[|clearing| - 1])
    ensures exists i :: 0 <= i < |clearing| - 1 && RemovesLocked(clearing[i], clearing[i + 1], 0, 0)
  {
    var file := File("key", 5, 0, true, false);
    var handle := Handle(0, 0, Some(Exclusive), true, false);
    run := RunUnderPutItem(c, file, handle);
    var s := run[|run| - 1];
    var gone := s.(files := [file.(linked := false)]);
    assert ClearListStep(s, Move(s, 1, Clearing([0])), 1, [0]);
    assert s.files[0 := file.(linked := false)] == gone.files && [0][1..] == [];
    assert ClearRemoveStep(Move(s, 1, Clearing([0])), Move(gone, 1, Clearing([])), 1);
    clearing := [s, Move(s, 1, Clearing([0])), Move(gone, 1, Clearing([])), Move(gone, 1, Finished)];
    assert OpenPutItem(s, 0);
    assert RemovesLocked(clearing[1], clearing[1 + 1], 0, 0);
    ClearConservesIff(c, run, clearing, 1);
  }

  lemma RunUnderPutItem(c: Config, file: File, handle: Handle) returns (run: seq<State>)
    requires 5 <= c.capacity < TWO_64
    requires file == File("key", 5, 0, true, false) && handle == Handle(0, 0, Some(Exclusive), true, false)
    ensures IsRun(c, run) && run[|run| - 1] == State([file], 0, In(1, Start(Clear)), map[0 := handle])
  {
    var s0 := State([], 0, Free, map[]);
    var s1 := Move(s0, 0, Start(OpenPut("key")));
    Took(c, s0, s1, 0, Acquire(OpenPut("key")));
    var s2 := State([file.(size := 0)], 0, In(0, Finished), map[0 := handle]);
    Took(c, s1, s2, 0, Create(0, 0));
    var s3 := s2.(lock := Free);
    Took(c, s2, s3, 0, Release);
    var s4 := s3.(files := [file]);
    assert LinkedBytes(s3.files[..0]) == 0 && LinkedBytes(s3.files) == 0;
    Took(c, s3, s4, 0, WriteItem(0, 5));
    var s5 := Move(s4, 1, Start(Clear));
    Took(c, s4, s5, 1, Acquire(Clear));
    run := [s0, s1, s2, s3, s4, s5];
  }
}
