/** What every step of every process keeps: the recorded size, the locks, and purge's bookkeeping. */
module FileCacheInvariant {
  import opened Options
  import opened FileCache

  // ---- Sums ----

  lemma BytesUpdate(files: seq<File>, i: nat, f: File)
    requires i < |files|
    ensures CountedBytes(files[i := f]) == CountedBytes(files) - Weight(files[i]) + Weight(f)
    ensures LinkedBytes(files[i := f]) == LinkedBytes(files) - LinkedWeight(files[i]) + LinkedWeight(f)
  {
    var n := |files| - 1;
    if i == n {
      assert files[i := f][..n] == files[..n];
    } else {
      assert files[i := f][..n] == files[..n][i := f];
      BytesUpdate(files[..n], i, f);
    }
  }

  lemma BytesAppend(files: seq<File>, f: File)
    ensures CountedBytes(files + [f]) == CountedBytes(files) + Weight(f)
    ensures LinkedBytes(files + [f]) == LinkedBytes(files) + LinkedWeight(f)
  {
    assert (files + [f])[..|files|] == files;
  }

  lemma BytesBound(files: seq<File>, i: nat)
    requires i < |files|
    ensures CountedBytes(files) + LinkedWeight(files[i]) - Weight(files[i]) <= LinkedBytes(files)
    ensures Weight(files[i]) <= CountedBytes(files)
    decreases |files|
  {
    var n := |files| - 1;
    CountedAtMostLinked(files[..n]);
    if i < n {
      BytesBound(files[..n], i);
    }
  }

  lemma CountedAtMostLinked(files: seq<File>)
    ensures CountedBytes(files) <= LinkedBytes(files)
  {
  }

  // ---- The invariant ----

  /** What has been removed from the directory but not yet from the recorded size. */
  function Outstanding(lock: CacheLock): nat {
    if lock.Free? then 0
    else
      match lock.pc
      case Unlinked(_, size) => size
      case Looping(_, _, _, removed) => removed
      case Taking(_, _, _, removed, _) => removed
      case _ => 0
  }

  /** The descriptor with which `put` is filling a new file. */
  function Creating(lock: CacheLock): Option<nat> {
    if lock.Free? then None
    else
      match lock.pc
      case Writing(h) => Some(h)
      case Adding(h, _) => Some(h)
      case _ => None
  }

  /** The descriptor of a file whose size is not recorded yet: of a running `put`, or of a PutItem
      that its destructor has not committed. */
  ghost predicate Uncommitted(s: State, h: nat) {
    h in s.handles && ((s.handles[h].isPut && !s.handles[h].committed) || Creating(s.lock) == Some(h))
  }

  /** Purge's list: oldest first, no file twice, with the sizes that counted files have. */
  ghost predicate ItemsFit(s: State, items: seq<Item>) {
    && (forall i, j :: 0 <= i < j < |items| ==> items[i].ino != items[j].ino && items[i].atime <= items[j].atime)
    && (forall i :: 0 <= i < |items| ==>
          items[i].ino < |s.files| && (s.files[items[i].ino].counted ==> s.files[items[i].ino].size == items[i].size))
  }

  ghost predicate Listed(items: seq<Item>, ino: Ino) {
    exists i :: 0 <= i < |items| && items[i].ino == ino
  }

  function RemovedBytes(items: seq<Item>, outcomes: seq<Outcome>): nat
    requires |outcomes| <= |items|
  {
    if outcomes == [] then 0
    else
      var n := |outcomes| - 1;
      RemovedBytes(items, outcomes[..n]) + if outcomes[n].Removed? then items[n].size else 0
  }

  ghost predicate LoopFits(s: State, items: seq<Item>, outcomes: seq<Outcome>, removed: nat) {
    && ItemsFit(s, items)
    && |outcomes| <= |items|
    && removed == RemovedBytes(items, outcomes)
    && (forall i :: 0 <= i < |items| ==>
          (s.files[items[i].ino].linked <==> !(i < |outcomes| && outcomes[i].Removed?)))
    && (forall ino :: 0 <= ino < |s.files| && s.files[ino].linked ==> Listed(items, ino))
  }

  ghost predicate PcFits(s: State, pc: PC) {
    match pc
    case Start(op) => op.Commit? ==> Uncommitted(s, op.handle) && s.handles[op.handle].isPut
    case Writing(h) => h in s.handles && !s.handles[h].isPut
    case Adding(h, sum) => HasHandle(s, h) && sum == s.recorded + FileOf(s, h).size
    case Locking(h, kind, _, deleting) =>
      && HasHandle(s, h) && s.handles[h].lock == None && !s.handles[h].isPut
      && (deleting ==> kind == Exclusive && FileOf(s, h).linked)
    case Holding(h) =>
      HasHandle(s, h) && s.handles[h].lock == Some(Exclusive) && !s.handles[h].isPut && FileOf(s, h).linked
    case Sized(h, size) =>
      && HasHandle(s, h) && s.handles[h].lock == Some(Exclusive) && !s.handles[h].isPut
      && FileOf(s, h).linked && FileOf(s, h).size == size
    case Unlinked(h, _) => h in s.handles && !s.handles[h].isPut
    case Closing(h) => h in s.handles && !s.handles[h].isPut
    case Scanning(ci, left, items) =>
      && ci == s.recorded && ItemsFit(s, items)
      && (forall i, j :: 0 <= i < j < |left| ==> left[i] != left[j])
      && (forall i :: 0 <= i < |left| ==> left[i] < |s.files| && s.files[left[i]].linked && !Listed(items, left[i]))
      && (forall i :: 0 <= i < |items| ==> s.files[items[i].ino].linked)
      && (forall ino :: 0 <= ino < |s.files| && s.files[ino].linked ==> ino in left || Listed(items, ino))
    case Looping(ci, items, outcomes, removed) => ci == s.recorded && LoopFits(s, items, outcomes, removed)
    case Taking(ci, items, outcomes, removed, h) =>
      && ci == s.recorded && LoopFits(s, items, outcomes, removed)
      && |outcomes| < |items| && HasHandle(s, h) && !s.handles[h].isPut
      && s.handles[h].lock == Some(Exclusive) && s.handles[h].ino == items[|outcomes|].ino
    case Purged(items, outcomes, removed) => LoopFits(s, items, outcomes, removed)
    case _ => true
  }

  /** `flock` semantics: a file with an exclusive lock has no other lock. */
  ghost predicate LocksExclude(s: State) {
    forall h, h' ::
      (h in s.handles && h' in s.handles && h != h' && s.handles[h].ino == s.handles[h'].ino
       && s.handles[h].lock == Some(Exclusive))
      ==> s.handles[h'].lock == None
  }

  ghost predicate HandlesFit(s: State) {
    forall h :: h in s.handles ==> s.handles[h].ino < |s.files|
  }

  /** A file is not counted exactly while an uncommitted descriptor holds it, exclusively. */
  ghost predicate CountingFits(s: State) {
    && (forall h :: Uncommitted(s, h) ==>
          HasHandle(s, h) && FileOf(s, h).linked && !FileOf(s, h).counted && s.handles[h].lock == Some(Exclusive))
    && (forall ino :: 0 <= ino < |s.files| && !s.files[ino].counted ==>
          exists h :: Uncommitted(s, h) && s.handles[h].ino == ino)
  }

  ghost predicate NamesFit(s: State) {
    forall i, j :: 0 <= i < j < |s.files| && s.files[i].linked && s.files[j].linked ==>
      s.files[i].key != s.files[j].key
  }

  ghost predicate SizesFit(c: Config, s: State) {
    && s.recorded == CountedBytes(s.files) + Outstanding(s.lock)
    && LinkedBytes(s.files) <= c.capacity < TWO_64
    && s.recorded <= c.capacity
  }

  ghost predicate Inv(c: Config, s: State) {
    && HandlesFit(s) && NamesFit(s) && LocksExclude(s) && CountingFits(s) && SizesFit(c, s)
    && (s.lock.In? ==> PcFits(s, s.lock.pc))
  }
}
