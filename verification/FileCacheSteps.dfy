/** Every step keeps the invariant, so every reachable state has it. */
module FileCacheSteps {
  import opened Options
  import opened FileCache
  import opened FileCacheInvariant

  /** A step that only moves the process inside the cache lock. */
  lemma MoveKeeps(c: Config, s: State, p: Proc, pc: PC)
    requires Inv(c, s) && Creating(s.lock) == Creating(In(p, pc)) && Outstanding(s.lock) == Outstanding(In(p, pc))
    requires PcFits(Move(s, p, pc), pc)
    ensures Inv(c, Move(s, p, pc))
  {
    var s' := Move(s, p, pc);
    assert forall h :: Uncommitted(s', h) <==> Uncommitted(s, h);
  }

  lemma AcquireKeeps(c: Config, s: State, s': State, p: Proc, op: Op)
    requires Inv(c, s) && AcquireStep(s, s', p, op)
    ensures Inv(c, s')
  {
    MoveKeeps(c, s, p, Start(op));
  }

  lemma ReleaseKeeps(c: Config, s: State, s': State, p: Proc)
    requires Inv(c, s) && ReleaseStep(s, s', p)
    ensures Inv(c, s')
  {
    assert forall h :: Uncommitted(s', h) <==> Uncommitted(s, h);
  }

  lemma CreateRefusedKeeps(c: Config, s: State, s': State, p: Proc)
    requires Inv(c, s) && CreateRefusedStep(s, s', p)
    ensures Inv(c, s')
  {
    MoveKeeps(c, s, p, Finished);
  }

  lemma CreateNames(c: Config, s: State, s': State, p: Proc, h: nat, time: nat)
    requires Inv(c, s) && CreateStep(s, s', p, h, time)
    ensures NamesFit(s') && HandlesFit(s') && LocksExclude(s')
  {
    var key := KeyToCreate(s.lock.pc.op).value;
    forall i | 0 <= i < |s.files| && s.files[i].linked
      ensures s.files[i].key != key
    {
      if s.files[i].key == key {
        assert Names(s, key, i);
      }
    }
  }

  lemma CreateCounting(c: Config, s: State, s': State, p: Proc, h: nat, time: nat)
    requires Inv(c, s) && CreateStep(s, s', p, h, time)
    ensures CountingFits(s')
  {
    var n := |s.files|;
    assert Uncommitted(s', h);
    assert forall g :: g != h ==> (Uncommitted(s', g) <==> Uncommitted(s, g));
    assert forall i :: 0 <= i < n ==> s'.files[i] == s.files[i];
    forall i | 0 <= i < |s'.files| && !s'.files[i].counted
      ensures exists g :: Uncommitted(s', g) && s'.handles[g].ino == i
    {
      if i < n {
        var g :| Uncommitted(s, g) && s.handles[g].ino == i;
        assert Uncommitted(s', g);
      }
    }
  }

  lemma CreateKeeps(c: Config, s: State, s': State, p: Proc, h: nat, time: nat)
    requires Inv(c, s) && CreateStep(s, s', p, h, time)
    ensures Inv(c, s')
  {
    CreateNames(c, s, s', p, h, time);
    CreateCounting(c, s, s', p, h, time);
    BytesAppend(s.files, File(KeyToCreate(s.lock.pc.op).value, 0, time, true, false));
  }

  lemma GrowKeeps(c: Config, s: State, s': State, h: nat, n: nat)
    requires Inv(c, s) && Grow(c, s, s', h, n) && Uncommitted(s, h)
    requires s.lock.In? && s.lock.pc.Adding? ==> s.lock.pc.h != h
    requires s.lock.In? && s.lock.pc.Start? && s.lock.pc.op.Commit? ==> s.lock.pc.op.handle != h
    ensures Inv(c, s')
  {
    var ino := s.handles[h].ino;
    BytesUpdate(s.files, ino, s'.files[ino]);
    assert forall g :: Uncommitted(s', g) <==> Uncommitted(s, g);
    SameMarksFit(s, s');
    if s.lock.In? {
      GrowsAnother(c, s, s', h, n);
      PcAlike(c, s, s');
    }
  }

  /** A file whose size is being added is not the one that grows. */
  lemma GrowsAnother(c: Config, s: State, s': State, h: nat, n: nat)
    requires Inv(c, s) && Grow(c, s, s', h, n) && Uncommitted(s, h) && s.lock.In?
    requires s.lock.pc.Adding? ==> s.lock.pc.h != h
    ensures Alike(s, s')
    ensures s.lock.pc.Adding? ==>
      HasHandle(s', s.lock.pc.h) && FileOf(s', s.lock.pc.h).size == FileOf(s, s.lock.pc.h).size
  {
    assert s.lock.pc.Adding? ==> Uncommitted(s, s.lock.pc.h);
  }

  /** Only sizes of uncounted files, and access times, differ. */
  ghost predicate Alike(s: State, s': State) {
    && |s'.files| == |s.files| && s'.recorded == s.recorded && s'.handles == s.handles
    && forall i :: 0 <= i < |s.files| ==>
         && s'.files[i].linked == s.files[i].linked && s'.files[i].counted == s.files[i].counted
         && (s.files[i].counted ==> s'.files[i].size == s.files[i].size)
  }

  lemma ItemsAlike(s: State, s': State, items: seq<Item>)
    requires Alike(s, s') && ItemsFit(s, items)
    ensures ItemsFit(s', items)
  {
  }

  lemma LoopAlike(s: State, s': State, items: seq<Item>, outcomes: seq<Outcome>, removed: nat)
    requires Alike(s, s') && LoopFits(s, items, outcomes, removed)
    ensures LoopFits(s', items, outcomes, removed)
  {
    ItemsAlike(s, s', items);
  }

  lemma ScanAlike(s: State, s': State, pc: PC)
    requires Alike(s, s') && pc.Scanning? && PcFits(s, pc)
    ensures PcFits(s', pc)
  {
    ItemsAlike(s, s', pc.items);
  }

  lemma PcAlike(c: Config, s: State, s': State)
    requires Inv(c, s) && Alike(s, s') && s.lock.In? && s'.lock == s.lock
    requires s.lock.pc.Adding? ==>
      HasHandle(s', s.lock.pc.h) && FileOf(s', s.lock.pc.h).size == FileOf(s, s.lock.pc.h).size
    ensures PcFits(s', s.lock.pc)
  {
    match s.lock.pc
    case Scanning(_, _, _) => ScanAlike(s, s', s.lock.pc);
    case Looping(_, items, outcomes, removed) => LoopAlike(s, s', items, outcomes, removed);
    case Taking(_, items, outcomes, removed, _) => LoopAlike(s, s', items, outcomes, removed);
    case Purged(items, outcomes, removed) => LoopAlike(s, s', items, outcomes, removed);
    case Holding(h) => LockedIsCounted(c, s, h);
    case Sized(h, _) => LockedIsCounted(c, s, h);
    case _ =>
  }

  /** A file locked exclusively through a descriptor that is not uncommitted is counted. */
  lemma LockedIsCounted(c: Config, s: State, h: nat)
    requires Inv(c, s) && h in s.handles && s.handles[h].lock == Some(Exclusive) && !Uncommitted(s, h)
    ensures FileOf(s, h).counted
  {
  }

  lemma PutWriteKeeps(c: Config, s: State, s': State, p: Proc, n: nat)
    requires Inv(c, s) && PutWriteStep(c, s, s', p, n)
    ensures Inv(c, s')
  {
    assert Uncommitted(s, s.lock.pc.h);
    GrowKeeps(c, s, s', s.lock.pc.h, n);
  }

  lemma PutGiveUpKeeps(c: Config, s: State, s': State, p: Proc)
    requires Inv(c, s) && PutGiveUpStep(s, s', p)
    ensures Inv(c, s')
  {
    var h := s.lock.pc.h;
    var ino := s.handles[h].ino;
    assert Uncommitted(s, h);
    BytesUpdate(s.files, ino, s'.files[ino]);
    CountedNow(c, s, s', h);
  }

  /** When a descriptor stops being uncommitted, its file alone becomes counted. */
  lemma CountedNow(c: Config, s: State, s': State, h: nat)
    requires Inv(c, s) && Uncommitted(s, h)
    requires s'.files == s.files[s.handles[h].ino := FileOf(s, h).(counted := true)]
    requires forall g :: Uncommitted(s', g) <==> Uncommitted(s, g) && g != h
    requires s'.handles.Keys == s.handles.Keys
    requires forall g :: g in s.handles ==>
               s'.handles[g].ino == s.handles[g].ino && s'.handles[g].lock == s.handles[g].lock
    ensures CountingFits(s')
  {
    var ino := s.handles[h].ino;
    forall i | 0 <= i < |s'.files| && !s'.files[i].counted
      ensures exists g :: Uncommitted(s', g) && s'.handles[g].ino == i
    {
      assert i != ino && !s.files[i].counted;
      var g :| Uncommitted(s, g) && s.handles[g].ino == i;
      assert Uncommitted(s', g);
    }
    forall g | Uncommitted(s', g)
      ensures s'.handles[g].ino != ino
    {
      assert Uncommitted(s, g) && g != h;
    }
  }

  /** The sum does not wrap. */
  lemma AddSizeSum(c: Config, s: State, s': State, p: Proc)
    requires Inv(c, s) && AddSizeStep(s, s', p)
    ensures PcFits(s', s'.lock.pc) && Uncommitted(s, s'.lock.pc.h)
  {
    var h := s'.lock.pc.h;
    assert Uncommitted(s, h);
    BytesBound(s.files, s.handles[h].ino);
  }

  lemma AddSizeKeeps(c: Config, s: State, s': State, p: Proc)
    requires Inv(c, s) && AddSizeStep(s, s', p)
    ensures Inv(c, s')
  {
    AddSizeSum(c, s, s', p);
    assert forall g :: Uncommitted(s', g) <==> Uncommitted(s, g);
    SameMarksFit(s, s');
  }

  lemma RecordSumSizes(c: Config, s: State, s': State, p: Proc)
    requires Inv(c, s) && RecordSumStep(s, s', p)
    ensures SizesFit(c, s')
  {
    var h := s.lock.pc.h;
    var ino := s.handles[h].ino;
    assert Uncommitted(s, h);
    BytesUpdate(s.files, ino, s'.files[ino]);
    BytesBound(s.files, ino);
  }

  lemma RecordSumCommits(c: Config, s: State, s': State, p: Proc)
    requires Inv(c, s) && RecordSumStep(s, s', p)
    ensures Uncommitted(s, s.lock.pc.h)
    ensures forall g :: Uncommitted(s', g) <==> Uncommitted(s, g) && g != s.lock.pc.h
  {
  }

  lemma RecordSumFrames(c: Config, s: State, s': State, p: Proc)
    requires Inv(c, s) && RecordSumStep(s, s', p)
    ensures HandlesFit(s') && NamesFit(s') && LocksExclude(s') && PcFits(s', s'.lock.pc)
  {
  }

  lemma RecordSumKeeps(c: Config, s: State, s': State, p: Proc)
    requires Inv(c, s) && RecordSumStep(s, s', p)
    ensures Inv(c, s')
  {
    RecordSumSizes(c, s, s', p);
    RecordSumCommits(c, s, s', p);
    RecordSumFrames(c, s, s', p);
    CountedNow(c, s, s', s.lock.pc.h);
  }

  lemma CloseKeeps(c: Config, s: State, s': State, h: nat)
    requires Inv(c, s) && h in s.handles && !Uncommitted(s, h) && !Uncommitted(s', h)
    requires s'.files == s.files && s'.handles == s.handles - {h}
    requires Creating(s'.lock) == Creating(s.lock)
    ensures HandlesFit(s') && LocksExclude(s') && CountingFits(s')
    ensures forall g :: Uncommitted(s', g) <==> Uncommitted(s, g)
  {
    assert forall g :: g in s'.handles <==> g in s.handles && g != h;
    assert forall g :: Uncommitted(s', g) <==> Uncommitted(s, g);
  }

  lemma CloseOwnKeeps(c: Config, s: State, s': State, p: Proc)
    requires Inv(c, s) && CloseOwnStep(s, s', p)
    ensures Inv(c, s')
  {
    CloseKeeps(c, s, s', s.lock.pc.h);
  }

  lemma OpenMissingKeeps(c: Config, s: State, s': State, p: Proc)
    requires Inv(c, s) && OpenMissingStep(s, s', p)
    ensures Inv(c, s')
  {
    MoveKeeps(c, s, p, Finished);
  }

  lemma OpenExistingKeeps(c: Config, s: State, s': State, p: Proc, h: nat, ino: Ino)
    requires Inv(c, s) && OpenExistingStep(s, s', p, h, ino)
    ensures Inv(c, s')
  {
    assert forall g :: Uncommitted(s', g) <==> Uncommitted(s, g);
  }

  /** Only access times differ, and `h` is a committed descriptor with a lock it was granted. */
  ghost predicate Granted(s: State, s': State, h: nat, handle: Handle, time: nat) {
    && handle.ino < |s.files| && !(handle.isPut && !handle.committed) && handle.lock.Some?
    && (h in s.handles ==> !Uncommitted(s, h) && s.handles[h].lock == None)
    && Compatible(s, handle.ino, handle.lock.value)
    && s'.files == s.files[handle.ino := s.files[handle.ino].(atime := time)]
    && s'.handles == s.handles[h := handle]
    && Creating(s'.lock) == Creating(s.lock) && Creating(s'.lock) != Some(h)
  }

  lemma GrantedLocks(s: State, s': State, h: nat, handle: Handle, time: nat)
    requires LocksExclude(s) && HandlesFit(s) && Granted(s, s', h, handle, time)
    ensures LocksExclude(s') && HandlesFit(s')
  {
  }

  /** Names and counting depend on these parts of the files, and on the uncommitted descriptors. */
  ghost predicate SameMarks(files: seq<File>, files': seq<File>) {
    && |files'| == |files|
    && forall i :: 0 <= i < |files| ==>
         && files'[i].linked == files[i].linked && files'[i].counted == files[i].counted
         && files'[i].key == files[i].key
  }

  lemma SameMarksFit(s: State, s': State)
    requires NamesFit(s) && CountingFits(s) && SameMarks(s.files, s'.files)
    requires forall g :: Uncommitted(s', g) <==> Uncommitted(s, g)
    requires forall g :: Uncommitted(s, g) ==> g in s'.handles && s'.handles[g] == s.handles[g]
    ensures NamesFit(s') && CountingFits(s')
  {
    forall i | 0 <= i < |s'.files| && !s'.files[i].counted
      ensures exists g :: Uncommitted(s', g) && s'.handles[g].ino == i
    {
      var g :| Uncommitted(s, g) && s.handles[g].ino == i;
      assert Uncommitted(s', g);
    }
  }

  lemma GrantedSame(s: State, s': State, h: nat, handle: Handle, time: nat)
    requires Granted(s, s', h, handle, time)
    ensures SameMarks(s.files, s'.files)
    ensures forall g :: Uncommitted(s', g) <==> Uncommitted(s, g)
    ensures forall g :: Uncommitted(s, g) ==> g in s'.handles && s'.handles[g] == s.handles[g]
  {
  }

  lemma GrantedCounting(c: Config, s: State, s': State, h: nat, handle: Handle, time: nat)
    requires Inv(c, s) && Granted(s, s', h, handle, time)
    ensures NamesFit(s') && CountingFits(s')
    ensures CountedBytes(s'.files) == CountedBytes(s.files) && LinkedBytes(s'.files) == LinkedBytes(s.files)
  {
    BytesUpdate(s.files, handle.ino, s'.files[handle.ino]);
    GrantedSame(s, s', h, handle, time);
    SameMarksFit(s, s');
  }

  lemma LockGrantedKeeps(c: Config, s: State, s': State, p: Proc, time: nat)
    requires Inv(c, s) && LockGrantedStep(s, s', p, time)
    ensures Inv(c, s')
  {
    var h := s.lock.pc.h;
    GrantedLocks(s, s', h, s'.handles[h], time);
    GrantedCounting(c, s, s', h, s'.handles[h], time);
  }

  lemma LockRefusedKeeps(c: Config, s: State, s': State, p: Proc)
    requires Inv(c, s) && LockRefusedStep(s, s', p)
    ensures Inv(c, s')
  {
    MoveKeeps(c, s, p, s'.lock.pc);
  }

  lemma TakeSizeKeeps(c: Config, s: State, s': State, p: Proc)
    requires Inv(c, s) && TakeSizeStep(s, s', p)
    ensures Inv(c, s')
  {
    MoveKeeps(c, s, p, s'.lock.pc);
  }

  lemma UnlinkKeeps(c: Config, s: State, s': State, p: Proc)
    requires Inv(c, s) && UnlinkStep(s, s', p)
    ensures Inv(c, s')
  {
    var h := s.lock.pc.h;
    LockedIsCounted(c, s, h);
    BytesUpdate(s.files, s.handles[h].ino, s'.files[s.handles[h].ino]);
    assert forall g :: Uncommitted(s', g) <==> Uncommitted(s, g);
  }

  lemma UnlinkFailsKeeps(c: Config, s: State, s': State, p: Proc)
    requires Inv(c, s) && UnlinkFailsStep(s, s', p)
    ensures Inv(c, s')
  {
    MoveKeeps(c, s, p, s'.lock.pc);
  }

  lemma RecordDeletionKeeps(c: Config, s: State, s': State, p: Proc)
    requires Inv(c, s) && RecordDeletionStep(s, s', p)
    ensures Inv(c, s')
  {
    assert s'.recorded == s.recorded - s.lock.pc.size;
    assert forall g :: Uncommitted(s', g) <==> Uncommitted(s, g);
  }

  lemma CloseItemKeeps(c: Config, s: State, s': State, p: Proc, h: nat)
    requires Inv(c, s) && CloseItemStep(s, s', p, h)
    ensures Inv(c, s')
  {
    CloseKeeps(c, s, s', h);
    if s.lock.In? {
      CloseItemPc(c, s, s', p, h);
    }
  }

  /** The operation that holds the cache lock works with another descriptor. */
  lemma CloseItemPc(c: Config, s: State, s': State, p: Proc, h: nat)
    requires Inv(c, s) && CloseItemStep(s, s', p, h) && s.lock.In?
    requires forall g :: Uncommitted(s', g) <==> Uncommitted(s, g)
    ensures PcFits(s', s'.lock.pc)
  {
  }

  lemma WriteItemKeeps(c: Config, s: State, s': State, p: Proc, h: nat, n: nat)
    requires Inv(c, s) && WriteItemStep(c, s, s', p, h, n)
    ensures Inv(c, s')
  {
    assert Uncommitted(s, h);
    GrowKeeps(c, s, s', h, n);
  }

  lemma ReadItemKeeps(c: Config, s: State, s': State, p: Proc, h: nat, time: nat)
    requires Inv(c, s) && ReadItemStep(s, s', p, h, time)
    ensures Inv(c, s')
  {
    BytesUpdate(s.files, s.handles[h].ino, s'.files[s.handles[h].ino]);
    assert forall g :: Uncommitted(s', g) <==> Uncommitted(s, g);
    SameMarksFit(s, s');
    if s.lock.In? {
      PcAlike(c, s, s');
    }
  }

  // ---- Purge ----

  lemma PurgeNotNeededKeeps(c: Config, s: State, s': State, p: Proc)
    requires Inv(c, s) && PurgeNotNeededStep(c, s, s', p)
    ensures Inv(c, s')
  {
    MoveKeeps(c, s, p, Finished);
  }

  lemma PurgeListKeeps(c: Config, s: State, s': State, p: Proc, listing: seq<Ino>)
    requires Inv(c, s) && PurgeListStep(c, s, s', p, listing)
    ensures Inv(c, s')
  {
    MoveKeeps(c, s, p, s'.lock.pc);
  }

  lemma {:induction false} InsertAdds(items: seq<Item>, item: Item)
    ensures forall x :: x in Insert(items, item) <==> x in items || x == item
  {
    if items != [] && items[|items| - 1].atime > item.atime {
      InsertAdds(items[..|items| - 1], item);
      assert items == items[..|items| - 1] + [items[|items| - 1]];
    }
  }

  ghost predicate OldestFirst(items: seq<Item>) {
    forall i, j :: 0 <= i < j < |items| ==> items[i].ino != items[j].ino && items[i].atime <= items[j].atime
  }

  lemma {:induction false} InsertOrders(items: seq<Item>, item: Item)
    requires OldestFirst(items) && forall x :: x in items ==> x.ino != item.ino
    ensures OldestFirst(Insert(items, item))
  {
    if items != [] && items[|items| - 1].atime > item.atime {
      var n := |items| - 1;
      var before, last := items[..n], items[n];
      InsertOrders(before, item);
      InsertAdds(before, item);
      var r := Insert(before, item);
      forall i | 0 <= i < |r|
        ensures r[i].ino != last.ino && r[i].atime <= last.atime
      {
        assert r[i] in r;
      }
    } else {
      assert forall i :: 0 <= i < |items| ==> items[i] in items;
    }
  }

  /** Insertion keeps the order and adds the item, at some place. */
  lemma InsertFits(s: State, items: seq<Item>, item: Item)
    requires ItemsFit(s, items) && !Listed(items, item.ino)
    requires item.ino < |s.files| && (s.files[item.ino].counted ==> s.files[item.ino].size == item.size)
    ensures ItemsFit(s, Insert(items, item))
    ensures forall x :: x in Insert(items, item) <==> x in items || x == item
  {
    InsertAdds(items, item);
    InsertOrders(items, item);
    var r := Insert(items, item);
    assert forall i :: 0 <= i < |r| ==> r[i] in r;
  }

  lemma PurgeStatKeeps(c: Config, s: State, s': State, p: Proc)
    requires Inv(c, s) && PurgeStatStep(s, s', p)
    ensures Inv(c, s')
  {
    var pc := s.lock.pc;
    ScanOne(s, pc.ci, pc.left, pc.items);
    MoveKeeps(c, s, p, s'.lock.pc);
  }

  /** One entry of the directory goes from the listing to the list. */
  lemma ScanOne(s: State, ci: nat, left: seq<Ino>, items: seq<Item>)
    requires PcFits(s, Scanning(ci, left, items)) && left != []
    ensures left[0] < |s.files|
    ensures var item := Item(left[0], s.files[left[0]].atime, s.files[left[0]].size);
            PcFits(s, Scanning(ci, left[1..], Insert(items, item)))
  {
    var item := Item(left[0], s.files[left[0]].atime, s.files[left[0]].size);
    var longer := Insert(items, item);
    InsertFits(s, items, item);
    ListedByMembership(items, item, longer);
    ScanLists(s, left, items, item, longer);
  }

  lemma ScanLists(s: State, left: seq<Ino>, items: seq<Item>, item: Item, longer: seq<Item>)
    requires left != [] && item.ino == left[0]
    requires forall i, j :: 0 <= i < j < |left| ==> left[i] != left[j]
    requires forall i :: 0 <= i < |left| ==> left[i] < |s.files| && s.files[left[i]].linked && !Listed(items, left[i])
    requires forall i :: 0 <= i < |items| ==> items[i].ino < |s.files| && s.files[items[i].ino].linked
    requires forall ino :: 0 <= ino < |s.files| && s.files[ino].linked ==> ino in left || Listed(items, ino)
    requires forall x :: x in longer <==> x in items || x == item
    requires forall x :: Listed(longer, x) <==> Listed(items, x) || x == item.ino
    ensures forall i :: 0 <= i < |left| - 1 ==> !Listed(longer, left[1..][i])
    ensures forall i :: 0 <= i < |longer| ==> longer[i].ino < |s.files| && s.files[longer[i].ino].linked
    ensures forall ino :: 0 <= ino < |s.files| && s.files[ino].linked ==> ino in left[1..] || Listed(longer, ino)
  {
    assert forall i :: 0 <= i < |longer| ==> longer[i] in longer;
    assert left == [left[0]] + left[1..];
  }

  lemma ListedByMembership(items: seq<Item>, item: Item, items': seq<Item>)
    requires forall x :: x in items' <==> x in items || x == item
    ensures forall x :: Listed(items', x) <==> Listed(items, x) || x == item.ino
  {
    forall x
      ensures Listed(items', x) <==> Listed(items, x) || x == item.ino
    {
      if Listed(items', x) {
        var i :| 0 <= i < |items'| && items'[i].ino == x;
        assert items'[i] in items';
      }
      if Listed(items, x) {
        var i :| 0 <= i < |items| && items[i].ino == x;
        assert items[i] in items';
      }
      assert item in items';
    }
  }

  lemma PurgeStartKeeps(c: Config, s: State, s': State, p: Proc)
    requires Inv(c, s) && PurgeStartStep(s, s', p)
    ensures Inv(c, s')
  {
    MoveKeeps(c, s, p, s'.lock.pc);
  }

  lemma RemovedBytesStep(items: seq<Item>, outcomes: seq<Outcome>, o: Outcome)
    requires |outcomes| < |items|
    ensures RemovedBytes(items, outcomes + [o])
         == RemovedBytes(items, outcomes) + if o.Removed? then items[|outcomes|].size else 0
  {
    assert (outcomes + [o])[..|outcomes|] == outcomes;
  }

  lemma PurgeSkipKeeps(c: Config, s: State, s': State, p: Proc)
    requires Inv(c, s) && PurgeSkipStep(c, s, s', p)
    ensures Inv(c, s')
  {
    var pc := s.lock.pc;
    RemovedBytesStep(pc.items, pc.outcomes, Locked);
    MoveKeeps(c, s, p, s'.lock.pc);
  }

  lemma PurgeTakeGrants(c: Config, s: State, s': State, p: Proc, h: nat, time: nat)
    requires HandlesFit(s) && PurgeTakeStep(c, s, s', p, h, time)
    ensures Granted(s, s', h, s'.handles[h], time)
  {
  }

  lemma PurgeTakeKeeps(c: Config, s: State, s': State, p: Proc, h: nat, time: nat)
    requires Inv(c, s) && PurgeTakeStep(c, s, s', p, h, time)
    ensures Inv(c, s')
  {
    PurgeTakeGrants(c, s, s', p, h, time);
    GrantedLocks(s, s', h, s'.handles[h], time);
    GrantedCounting(c, s, s', h, s'.handles[h], time);
    PurgeTakePc(c, s, s', p, h, time);
  }

  lemma PurgeTakePc(c: Config, s: State, s': State, p: Proc, h: nat, time: nat)
    requires s.lock.In? && PcFits(s, s.lock.pc) && PurgeTakeStep(c, s, s', p, h, time)
    ensures PcFits(s', s'.lock.pc) && Outstanding(s'.lock) == Outstanding(s.lock)
  {
    var pc := s.lock.pc;
    LoopFrame(s, s', pc.items, pc.outcomes, pc.removed);
  }

  /** Purge's bookkeeping does not depend on descriptors and access times. */
  lemma LoopFrame(s: State, s': State, items: seq<Item>, outcomes: seq<Outcome>, removed: nat)
    requires LoopFits(s, items, outcomes, removed) && |s'.files| == |s.files|
    requires forall i :: 0 <= i < |s.files| ==>
      && s'.files[i].linked == s.files[i].linked && s'.files[i].counted == s.files[i].counted
      && s'.files[i].size == s.files[i].size
    ensures LoopFits(s', items, outcomes, removed)
  {
  }

  /** Taking one file out of the directory, and noting it. */
  lemma RemoveFits(s: State, s': State, items: seq<Item>, outcomes: seq<Outcome>, removed: nat, ino: Ino)
    requires LoopFits(s, items, outcomes, removed) && |outcomes| < |items|
    requires ino == items[|outcomes|].ino && s'.files == s.files[ino := s.files[ino].(linked := false)]
    ensures LoopFits(s', items, outcomes + [Removed], removed + items[|outcomes|].size)
  {
    RemovedBytesStep(items, outcomes, Removed);
    var k := |outcomes|;
    assert forall i :: 0 <= i < |items| && i != k ==> items[i].ino != ino;
  }

  lemma PurgeRemoveSizes(c: Config, s: State, s': State, p: Proc)
    requires Inv(c, s) && PurgeRemoveStep(s, s', p)
    ensures SizesFit(c, s') && s'.lock.pc.removed == s.lock.pc.removed + Current(s.lock.pc).size
  {
    var pc := s.lock.pc;
    var ino := s.handles[pc.h].ino;
    LockedIsCounted(c, s, pc.h);
    BytesUpdate(s.files, ino, s'.files[ino]);
    BytesBound(s.files, ino);
    assert Weight(s.files[ino]) == Current(pc).size;
  }

  lemma PurgeRemoveKeeps(c: Config, s: State, s': State, p: Proc)
    requires Inv(c, s) && PurgeRemoveStep(s, s', p)
    ensures Inv(c, s')
  {
    var pc := s.lock.pc;
    PurgeRemoveSizes(c, s, s', p);
    RemoveFits(s, s', pc.items, pc.outcomes, pc.removed, s.handles[pc.h].ino);
    LockedIsCounted(c, s, pc.h);
    UnlinkedCounting(c, s, s', pc.h);
  }

  lemma UnlinkedCounting(c: Config, s: State, s': State, h: nat)
    requires Inv(c, s) && HasHandle(s, h) && FileOf(s, h).counted && !Uncommitted(s, h)
    requires s'.files == s.files[s.handles[h].ino := FileOf(s, h).(linked := false)]
    requires s'.handles == s.handles - {h} && Creating(s'.lock) == Creating(s.lock)
    ensures HandlesFit(s') && NamesFit(s') && LocksExclude(s') && CountingFits(s')
  {
    assert forall g :: g in s'.handles <==> g in s.handles && g != h;
    assert forall g :: Uncommitted(s', g) <==> Uncommitted(s, g);
    assert forall i :: 0 <= i < |s.files| ==> s'.files[i].counted == s.files[i].counted;
  }

  lemma PurgeRemoveFailsKeeps(c: Config, s: State, s': State, p: Proc)
    requires Inv(c, s) && PurgeRemoveFailsStep(s, s', p)
    ensures Inv(c, s')
  {
    var pc := s.lock.pc;
    CloseKeeps(c, s, s', pc.h);
    RemovedBytesStep(pc.items, pc.outcomes, Undeletable);
    assert LoopFits(s', pc.items, pc.outcomes + [Undeletable], pc.removed);
  }

  lemma PurgeFinishKeeps(c: Config, s: State, s': State, p: Proc)
    requires Inv(c, s) && PurgeFinishStep(c, s, s', p)
    ensures Inv(c, s')
  {
    assert s'.recorded == s.lock.pc.ci - s.lock.pc.removed;
    assert forall g :: Uncommitted(s', g) <==> Uncommitted(s, g);
  }

  // ---- All steps ----

  lemma PutStepKeeps(c: Config, s: State, s': State, p: Proc, step: Step)
    requires Inv(c, s) && NextStep(c, s, s', p, step)
    requires step.CreateRefused? || step.Create? || step.PutWrite? || step.PutGiveUp? || step.AddSize?
             || step.RecordSum? || step.Acquire? || step.Release? || step.CloseItem? || step.WriteItem?
    ensures Inv(c, s')
  {
    match step
    case Acquire(op) => AcquireKeeps(c, s, s', p, op);
    case Release => ReleaseKeeps(c, s, s', p);
    case CreateRefused => CreateRefusedKeeps(c, s, s', p);
    case Create(h, time) => CreateKeeps(c, s, s', p, h, time);
    case PutWrite(n) => PutWriteKeeps(c, s, s', p, n);
    case PutGiveUp => PutGiveUpKeeps(c, s, s', p);
    case AddSize => AddSizeKeeps(c, s, s', p);
    case RecordSum => RecordSumKeeps(c, s, s', p);
    case CloseItem(h) => CloseItemKeeps(c, s, s', p, h);
    case WriteItem(h, n) => WriteItemKeeps(c, s, s', p, h, n);
  }

  lemma GetDelStepKeeps(c: Config, s: State, s': State, p: Proc, step: Step)
    requires Inv(c, s) && NextStep(c, s, s', p, step)
    requires step.CloseOwn? || step.OpenMissing? || step.OpenExisting? || step.LockGranted? || step.LockRefused?
             || step.TakeSize? || step.Unlink? || step.UnlinkFails? || step.RecordDeletion? || step.ReadItem?
    ensures Inv(c, s')
  {
    match step
    case CloseOwn => CloseOwnKeeps(c, s, s', p);
    case OpenMissing => OpenMissingKeeps(c, s, s', p);
    case OpenExisting(h, ino) => OpenExistingKeeps(c, s, s', p, h, ino);
    case LockGranted(time) => LockGrantedKeeps(c, s, s', p, time);
    case LockRefused => LockRefusedKeeps(c, s, s', p);
    case TakeSize => TakeSizeKeeps(c, s, s', p);
    case Unlink => UnlinkKeeps(c, s, s', p);
    case UnlinkFails => UnlinkFailsKeeps(c, s, s', p);
    case RecordDeletion => RecordDeletionKeeps(c, s, s', p);
    case ReadItem(h, time) => ReadItemKeeps(c, s, s', p, h, time);
  }

  lemma PurgeStepKeeps(c: Config, s: State, s': State, p: Proc, step: Step)
    requires Inv(c, s) && NextStep(c, s, s', p, step)
    requires step.PurgeNotNeeded? || step.PurgeList? || step.PurgeStat? || step.PurgeStart? || step.PurgeSkip?
             || step.PurgeTake? || step.PurgeRemove? || step.PurgeRemoveFails? || step.PurgeFinish?
    ensures Inv(c, s')
  {
    match step
    case PurgeNotNeeded => PurgeNotNeededKeeps(c, s, s', p);
    case PurgeList(listing) => PurgeListKeeps(c, s, s', p, listing);
    case PurgeStat => PurgeStatKeeps(c, s, s', p);
    case PurgeStart => PurgeStartKeeps(c, s, s', p);
    case PurgeSkip => PurgeSkipKeeps(c, s, s', p);
    case PurgeTake(h, time) => PurgeTakeKeeps(c, s, s', p, h, time);
    case PurgeRemove => PurgeRemoveKeeps(c, s, s', p);
    case PurgeRemoveFails => PurgeRemoveFailsKeeps(c, s, s', p);
    case PurgeFinish => PurgeFinishKeeps(c, s, s', p);
  }

  lemma StepKeeps(c: Config, s: State, s': State, p: Proc, step: Step)
    requires Inv(c, s) && NextStep(c, s, s', p, step)
    ensures Inv(c, s')
  {
    if step.CreateRefused? || step.Create? || step.PutWrite? || step.PutGiveUp? || step.AddSize?
       || step.RecordSum? || step.Acquire? || step.Release? || step.CloseItem? || step.WriteItem? {
      PutStepKeeps(c, s, s', p, step);
    } else if step.CloseOwn? || step.OpenMissing? || step.OpenExisting? || step.LockGranted? || step.LockRefused?
       || step.TakeSize? || step.Unlink? || step.UnlinkFails? || step.RecordDeletion? || step.ReadItem? {
      GetDelStepKeeps(c, s, s', p, step);
    } else {
      PurgeStepKeeps(c, s, s', p, step);
    }
  }

  lemma {:induction false} ReachableInv(c: Config, run: seq<State>, i: nat)
    requires c.capacity < TWO_64 && IsRun(c, run) && i < |run|
    ensures Inv(c, run[i])
  {
    if i > 0 {
      ReachableInv(c, run, i - 1);
      assert Next(c, run[i - 1], run[i - 1 + 1]);
      var p, step :| NextStep(c, run[i - 1], run[i], p, step);
      StepKeeps(c, run[i - 1], run[i], p, step);
    }
  }

  // ---- Runs that start anywhere ----

  ghost predicate IsTrace(c: Config, trace: seq<State>) {
    trace != [] && forall i :: 0 <= i < |trace| - 1 ==> Next(c, trace[i], trace[i + 1])
  }

  lemma Took(c: Config, s: State, s': State, p: Proc, step: Step)
    requires NextStep(c, s, s', p, step)
    ensures Next(c, s, s')
  {
  }

  lemma JoinTraces(c: Config, a: seq<State>, b: seq<State>)
    requires IsTrace(c, a) && IsTrace(c, b) && Next(c, a[|a| - 1], b[0])
    ensures IsTrace(c, a + b) && (a + b)[0] == a[0] && (a + b)[|a + b| - 1] == b[|b| - 1]
  {
    var t := a + b;
    forall i | 0 <= i < |t| - 1
      ensures Next(c, t[i], t[i + 1])
    {
      if i < |a| - 1 {
        assert Next(c, a[i], a[i + 1]);
      } else if i >= |a| {
        assert Next(c, b[i - |a|], b[i - |a| + 1]);
      }
    }
  }
}
