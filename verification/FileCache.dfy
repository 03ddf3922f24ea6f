/** The multi-process file cache. Every operation works under an exclusive lock on the whole cache;
    outside it, other processes go on closing their items and writing to the files they are putting.
    One step below is one system call, or one read or write of the recorded size; opening a file and
    locking it are one step where no other process can come between, and so are removing a file, noting
    its size and closing it in a purge. The steps of `clear` are in FileCacheClear. */
module FileCache {
  import opened Options

  type Proc = nat
  type Ino = nat

  const TWO_64 := 0x1_0000_0000_0000_0000

  datatype LockKind = Shared | Exclusive

  /** A file of the cache directory. An unlinked file stays in the table, as inodes with open
      descriptors do. `counted` says that its size has been added to the recorded size. */
  datatype File = File(key: string, size: nat, atime: nat, linked: bool, counted: bool)

  /** An open file description: an Item, or a PutItem and whether its destructor has committed it. */
  datatype Handle = Handle(owner: Proc, ino: Ino, lock: Option<LockKind>, isPut: bool, committed: bool)

  datatype Op =
    | Put(key: string)
    | OpenPut(key: string)
    | Get(key: string, kind: LockKind, blocking: bool)
    | Del(key: string, blocking: bool)
    | Commit(handle: nat)
    | Purge
    | Clear

  /** An entry of purge's multimap, with what `stat` said. */
  datatype Item = Item(ino: Ino, atime: nat, size: nat)

  /** What happened to an entry: removed, skipped because another descriptor has it locked, or kept
      because `remove` failed. */
  datatype Outcome = Removed | Locked | Undeletable

  /** Where the process that holds the cache lock is. */
  datatype PC =
    | Start(op: Op)
    | Writing(h: nat)
    | Adding(h: nat, sum: nat)
    | Locking(h: nat, kind: LockKind, blocking: bool, deleting: bool)
    | Holding(h: nat)
    | Sized(h: nat, size: nat)
    | Unlinked(h: nat, size: nat)
    | Scanning(ci: nat, left: seq<Ino>, items: seq<Item>)
    | Looping(ci: nat, items: seq<Item>, outcomes: seq<Outcome>, removed: nat)
    | Taking(ci: nat, items: seq<Item>, outcomes: seq<Outcome>, removed: nat, h: nat)
    | Purged(items: seq<Item>, outcomes: seq<Outcome>, removed: nat)
    | Closing(h: nat)
    | Clearing(left: seq<Ino>)
    | Finished

  /** Whether the cache lock is free, or held by a process in the middle of an operation. */
  datatype CacheLock = Free | In(proc: Proc, pc: PC)

  /** The limits of the cache, and the size of the disk it lives on. */
  datatype Config = Config(maxSize: nat, purgeSize: nat, capacity: nat)

  datatype State = State(files: seq<File>, recorded: nat, lock: CacheLock, handles: map<nat, Handle>)

  // ---- Sizes ----

  function Weight(f: File): nat { if f.linked && f.counted then f.size else 0 }

  function LinkedWeight(f: File): nat { if f.linked then f.size else 0 }

  /** The bytes that the recorded size should account for. */
  function CountedBytes(files: seq<File>): nat {
    if files == [] then 0 else CountedBytes(files[..|files| - 1]) + Weight(files[|files| - 1])
  }

  /** The bytes in the cache directory. */
  function LinkedBytes(files: seq<File>): nat {
    if files == [] then 0 else LinkedBytes(files[..|files| - 1]) + LinkedWeight(files[|files| - 1])
  }

  /** `unsigned long long` addition and subtraction. */
  function WrapAdd(a: nat, b: nat): nat { (a + b) % TWO_64 }

  function WrapSub(a: nat, b: nat): nat { (a - b) % TWO_64 }

  // ---- Locks and names ----

  /** `flock` would grant a lock of this kind to a descriptor that holds none. */
  ghost predicate Compatible(s: State, ino: Ino, kind: LockKind) {
    forall h :: h in s.handles && s.handles[h].ino == ino && s.handles[h].lock.Some? ==>
      kind == Shared && s.handles[h].lock == Some(Shared)
  }

  ghost predicate Names(s: State, key: string, ino: Ino) {
    ino < |s.files| && s.files[ino].linked && s.files[ino].key == key
  }

  ghost predicate Present(s: State, key: string) {
    exists ino :: Names(s, key, ino)
  }

  ghost predicate At(s: State, p: Proc, pc: PC) { s.lock == In(p, pc) }

  function Move(s: State, p: Proc, pc: PC): State { s.(lock := In(p, pc)) }

  function WithFile(s: State, ino: Ino, f: File): State
    requires ino < |s.files|
  {
    s.(files := s.files[ino := f])
  }

  ghost predicate HasHandle(s: State, h: nat) {
    h in s.handles && s.handles[h].ino < |s.files|
  }

  function FileOf(s: State, h: nat): File
    requires HasHandle(s, h)
  {
    s.files[s.handles[h].ino]
  }

  // ---- Steps ----

  datatype Step =
    | Acquire(op: Op)
    | Release
    | CreateRefused
    | Create(h: nat, time: nat)
    | PutWrite(n: nat)
    | PutGiveUp
    | AddSize
    | RecordSum
    | CloseOwn
    | OpenMissing
    | OpenExisting(h: nat, ino: Ino)
    | LockGranted(time: nat)
    | LockRefused
    | TakeSize
    | Unlink
    | UnlinkFails
    | RecordDeletion
    | PurgeNotNeeded
    | PurgeList(listing: seq<Ino>)
    | PurgeStat
    | PurgeStart
    | PurgeSkip
    | PurgeTake(h: nat, time: nat)
    | PurgeRemove
    | PurgeRemoveFails
    | PurgeFinish
    | CloseItem(h: nat)
    | WriteItem(h: nat, n: nat)
    | ReadItem(h: nat, time: nat)

  /** A process enters an operation. Only the destructor of an uncommitted PutItem commits it. */
  ghost predicate AcquireStep(s: State, s': State, p: Proc, op: Op) {
    && s.lock == Free
    && (op.Commit? ==> op.handle in s.handles && var h := s.handles[op.handle];
                       h.owner == p && h.isPut && !h.committed)
    && s' == Move(s, p, Start(op))
  }

  ghost predicate ReleaseStep(s: State, s': State, p: Proc) {
    && s.lock.In? && s.lock.proc == p && (s.lock.pc.Finished? || s.lock.pc.Purged?)
    && s' == s.(lock := Free)
  }

  function KeyToCreate(op: Op): Option<string> {
    match op
    case Put(key) => Some(key)
    case OpenPut(key) => Some(key)
    case _ => None
  }

  /** `create_key` when the file exists. */
  ghost predicate CreateRefusedStep(s: State, s': State, p: Proc) {
    && s.lock.In? && s.lock.proc == p && s.lock.pc.Start?
    && KeyToCreate(s.lock.pc.op).Some? && Present(s, KeyToCreate(s.lock.pc.op).value)
    && s' == Move(s, p, Finished)
  }

  /** `create_key` and the exclusive lock on the new file. */
  ghost predicate CreateStep(s: State, s': State, p: Proc, h: nat, time: nat) {
    && s.lock.In? && s.lock.proc == p && s.lock.pc.Start?
    && var op := s.lock.pc.op;
    && KeyToCreate(op).Some? && !Present(s, KeyToCreate(op).value) && h !in s.handles
    && s' == s.(
         files := s.files + [File(KeyToCreate(op).value, 0, time, true, false)],
         handles := s.handles[h := Handle(p, |s.files|, Some(Exclusive), op.OpenPut?, false)],
         lock := In(p, if op.OpenPut? then Finished else Writing(h)))
  }

  /** A write to a file: it succeeds only if the disk has room. */
  ghost predicate Grow(c: Config, s: State, s': State, h: nat, n: nat) {
    && HasHandle(s, h)
    && LinkedBytes(s.files) + n <= c.capacity
    && s' == WithFile(s, s.handles[h].ino, FileOf(s, h).(size := FileOf(s, h).size + n))
  }

  ghost predicate PutWriteStep(c: Config, s: State, s': State, p: Proc, n: nat) {
    && s.lock.In? && s.lock.proc == p && s.lock.pc.Writing?
    && Grow(c, s, s', s.lock.pc.h, n)
  }

  /** `put` returns when the source file cannot be opened; nothing has been written yet. */
  ghost predicate PutGiveUpStep(s: State, s': State, p: Proc) {
    && s.lock.In? && s.lock.proc == p && s.lock.pc.Writing?
    && var h := s.lock.pc.h;
    && HasHandle(s, h) && FileOf(s, h).size == 0
    && s' == Move(WithFile(s, s.handles[h].ino, FileOf(s, h).(counted := true)), p, Closing(h))
  }

  /** The recorded size is read and the file's size added: at the end of `put`, or in ~PutItem. */
  ghost predicate AddSizeStep(s: State, s': State, p: Proc) {
    && s.lock.In? && s.lock.proc == p
    && (s.lock.pc.Writing? || (s.lock.pc.Start? && s.lock.pc.op.Commit?))
    && var h := if s.lock.pc.Writing? then s.lock.pc.h else s.lock.pc.op.handle;
    && HasHandle(s, h)
    && s' == Move(s, p, Adding(h, WrapAdd(s.recorded, FileOf(s, h).size)))
  }

  ghost predicate RecordSumStep(s: State, s': State, p: Proc) {
    && s.lock.In? && s.lock.proc == p && s.lock.pc.Adding?
    && var h := s.lock.pc.h;
    && HasHandle(s, h)
    && s' == s.(
         recorded := s.lock.pc.sum,
         files := s.files[s.handles[h].ino := FileOf(s, h).(counted := true)],
         handles := s.handles[h := s.handles[h].(committed := s.handles[h].isPut)],
         lock := In(p, if s.handles[h].isPut then Finished else Closing(h)))
  }

  /** The operation's own Item goes out of scope. */
  ghost predicate CloseOwnStep(s: State, s': State, p: Proc) {
    && s.lock.In? && s.lock.proc == p && s.lock.pc.Closing?
    && s' == s.(handles := s.handles - {s.lock.pc.h}, lock := In(p, Finished))
  }

  function KeyToOpen(op: Op): Option<string> {
    match op
    case Get(key, _, _) => Some(key)
    case Del(key, _) => Some(key)
    case _ => None
  }

  ghost predicate OpenMissingStep(s: State, s': State, p: Proc) {
    && s.lock.In? && s.lock.proc == p && s.lock.pc.Start?
    && KeyToOpen(s.lock.pc.op).Some? && !Present(s, KeyToOpen(s.lock.pc.op).value)
    && s' == Move(s, p, Finished)
  }

  ghost predicate OpenExistingStep(s: State, s': State, p: Proc, h: nat, ino: Ino) {
    && s.lock.In? && s.lock.proc == p && s.lock.pc.Start?
    && var op := s.lock.pc.op;
    && KeyToOpen(op).Some? && Names(s, KeyToOpen(op).value, ino) && h !in s.handles
    && s' == s.(
         handles := s.handles[h := Handle(p, ino, None, false, false)],
         lock := In(p, Locking(h, if op.Get? then op.kind else Exclusive, op.blocking, op.Del?)))
  }

  /** `lock_the_item` succeeds; it also sets the access time. */
  ghost predicate LockGrantedStep(s: State, s': State, p: Proc, time: nat) {
    && s.lock.In? && s.lock.proc == p && s.lock.pc.Locking?
    && var pc := s.lock.pc;
    && HasHandle(s, pc.h) && Compatible(s, s.handles[pc.h].ino, pc.kind)
    && s' == s.(
         files := s.files[s.handles[pc.h].ino := FileOf(s, pc.h).(atime := time)],
         handles := s.handles[pc.h := s.handles[pc.h].(lock := Some(pc.kind))],
         lock := In(p, if pc.deleting then Holding(pc.h) else Finished))
  }

  /** A non-blocking lock is refused. The descriptor of a `get` stays open in the caller's Item. */
  ghost predicate LockRefusedStep(s: State, s': State, p: Proc) {
    && s.lock.In? && s.lock.proc == p && s.lock.pc.Locking?
    && var pc := s.lock.pc;
    && HasHandle(s, pc.h) && !pc.blocking && !Compatible(s, s.handles[pc.h].ino, pc.kind)
    && s' == Move(s, p, if pc.deleting then Closing(pc.h) else Finished)
  }

  ghost predicate TakeSizeStep(s: State, s': State, p: Proc) {
    && s.lock.In? && s.lock.proc == p && s.lock.pc.Holding?
    && HasHandle(s, s.lock.pc.h)
    && s' == Move(s, p, Sized(s.lock.pc.h, FileOf(s, s.lock.pc.h).size))
  }

  ghost predicate UnlinkStep(s: State, s': State, p: Proc) {
    && s.lock.In? && s.lock.proc == p && s.lock.pc.Sized?
    && var h := s.lock.pc.h;
    && HasHandle(s, h)
    && s' == Move(WithFile(s, s.handles[h].ino, FileOf(s, h).(linked := false)), p, Unlinked(h, s.lock.pc.size))
  }

  ghost predicate UnlinkFailsStep(s: State, s': State, p: Proc) {
    && s.lock.In? && s.lock.proc == p && s.lock.pc.Sized?
    && s' == Move(s, p, Closing(s.lock.pc.h))
  }

  ghost predicate RecordDeletionStep(s: State, s': State, p: Proc) {
    && s.lock.In? && s.lock.proc == p && s.lock.pc.Unlinked?
    && s' == s.(recorded := WrapSub(s.recorded, s.lock.pc.size), lock := In(p, Closing(s.lock.pc.h)))
  }

  // ---- Purge ----

  ghost predicate PurgeNotNeededStep(c: Config, s: State, s': State, p: Proc) {
    && At(s, p, Start(Purge)) && s.recorded < c.maxSize
    && s' == Move(s, p, Finished)
  }

  /** The directory listing: every linked file once, in any order. */
  ghost predicate IsListing(s: State, listing: seq<Ino>) {
    && (forall i, j :: 0 <= i < j < |listing| ==> listing[i] != listing[j])
    && (forall i :: 0 <= i < |listing| ==> listing[i] < |s.files| && s.files[listing[i]].linked)
    && (forall ino :: 0 <= ino < |s.files| && s.files[ino].linked ==> ino in listing)
  }

  ghost predicate PurgeListStep(c: Config, s: State, s': State, p: Proc, listing: seq<Ino>) {
    && At(s, p, Start(Purge)) && c.maxSize <= s.recorded && IsListing(s, listing)
    && s' == Move(s, p, Scanning(s.recorded, listing, []))
  }

  /** `multimap::insert`: after the entries that are at least as old. */
  function Insert(items: seq<Item>, item: Item): seq<Item> {
    if items == [] || items[|items| - 1].atime <= item.atime then items + [item]
    else Insert(items[..|items| - 1], item) + [items[|items| - 1]]
  }

  ghost predicate PurgeStatStep(s: State, s': State, p: Proc) {
    && s.lock.In? && s.lock.proc == p && s.lock.pc.Scanning? && s.lock.pc.left != []
    && var pc := s.lock.pc;
    && var ino := pc.left[0];
    && ino < |s.files|
    && s' == Move(s, p,
                  Scanning(pc.ci, pc.left[1..], Insert(pc.items, Item(ino, s.files[ino].atime, s.files[ino].size))))
  }

  ghost predicate PurgeStartStep(s: State, s': State, p: Proc) {
    && s.lock.In? && s.lock.proc == p && s.lock.pc.Scanning? && s.lock.pc.left == []
    && s' == Move(s, p, Looping(s.lock.pc.ci, s.lock.pc.items, [], 0))
  }

  ghost predicate InLoop(c: Config, s: State, p: Proc) {
    && s.lock.In? && s.lock.proc == p && s.lock.pc.Looping?
    && |s.lock.pc.outcomes| < |s.lock.pc.items| && s.lock.pc.removed <= c.purgeSize
  }

  function Current(pc: PC): Item
    requires pc.Looping? || pc.Taking?
    requires |pc.outcomes| < |pc.items|
  {
    pc.items[|pc.outcomes|]
  }

  ghost predicate PurgeSkipStep(c: Config, s: State, s': State, p: Proc) {
    && InLoop(c, s, p)
    && var pc := s.lock.pc;
    && !Compatible(s, Current(pc).ino, Exclusive)
    && s' == Move(s, p, Looping(pc.ci, pc.items, pc.outcomes + [Locked], pc.removed))
  }

  ghost predicate PurgeTakeStep(c: Config, s: State, s': State, p: Proc, h: nat, time: nat) {
    && InLoop(c, s, p)
    && var pc := s.lock.pc;
    && var ino := Current(pc).ino;
    && h !in s.handles && ino < |s.files| && Compatible(s, ino, Exclusive)
    && s' == s.(
         files := s.files[ino := s.files[ino].(atime := time)],
         handles := s.handles[h := Handle(p, ino, Some(Exclusive), false, false)],
         lock := In(p, Taking(pc.ci, pc.items, pc.outcomes, pc.removed, h)))
  }

  ghost predicate PurgeRemoveStep(s: State, s': State, p: Proc) {
    && s.lock.In? && s.lock.proc == p && s.lock.pc.Taking?
    && var pc := s.lock.pc;
    && HasHandle(s, pc.h) && |pc.outcomes| < |pc.items|
    && s' == s.(
         files := s.files[s.handles[pc.h].ino := FileOf(s, pc.h).(linked := false)],
         handles := s.handles - {pc.h},
         lock := In(p, Looping(pc.ci, pc.items, pc.outcomes + [Removed], WrapAdd(pc.removed, Current(pc).size))))
  }

  /** A soft error: the loop goes on. */
  ghost predicate PurgeRemoveFailsStep(s: State, s': State, p: Proc) {
    && s.lock.In? && s.lock.proc == p && s.lock.pc.Taking?
    && var pc := s.lock.pc;
    && s' == s.(
         handles := s.handles - {pc.h},
         lock := In(p, Looping(pc.ci, pc.items, pc.outcomes + [Undeletable], pc.removed)))
  }

  ghost predicate PurgeFinishStep(c: Config, s: State, s': State, p: Proc) {
    && s.lock.In? && s.lock.proc == p && s.lock.pc.Looping?
    && var pc := s.lock.pc;
    && (pc.removed > c.purgeSize || |pc.outcomes| == |pc.items|)
    && s' == s.(recorded := WrapSub(pc.ci, pc.removed), lock := In(p, Purged(pc.items, pc.outcomes, pc.removed)))
  }

  // ---- Steps outside the cache lock ----

  /** The handle that the process inside the cache lock is working with. */
  function Busy(s: State): Option<nat> {
    if s.lock.Free? then None
    else
      match s.lock.pc
      case Start(Commit(h)) => Some(h)
      case Writing(h) => Some(h)
      case Adding(h, _) => Some(h)
      case Locking(h, _, _, _) => Some(h)
      case Holding(h) => Some(h)
      case Sized(h, _) => Some(h)
      case Unlinked(h, _) => Some(h)
      case Taking(_, _, _, _, h) => Some(h)
      case Closing(h) => Some(h)
      case _ => None
  }

  /** An Item, or a PutItem whose destructor has committed, is closed. */
  ghost predicate CloseItemStep(s: State, s': State, p: Proc, h: nat) {
    && h in s.handles && s.handles[h].owner == p && Busy(s) != Some(h)
    && (s.handles[h].isPut ==> s.handles[h].committed)
    && s' == s.(handles := s.handles - {h})
  }

  /** The owner of a PutItem writes to its file. */
  ghost predicate WriteItemStep(c: Config, s: State, s': State, p: Proc, h: nat, n: nat) {
    && h in s.handles && s.handles[h].owner == p && Busy(s) != Some(h)
    && s.handles[h].isPut && !s.handles[h].committed
    && Grow(c, s, s', h, n)
  }

  /** Reading through a descriptor may change the access time. */
  ghost predicate ReadItemStep(s: State, s': State, p: Proc, h: nat, time: nat) {
    && HasHandle(s, h) && s.handles[h].owner == p
    && s' == WithFile(s, s.handles[h].ino, FileOf(s, h).(atime := time))
  }

  ghost predicate NextStep(c: Config, s: State, s': State, p: Proc, step: Step) {
    match step
    case Acquire(op) => AcquireStep(s, s', p, op)
    case Release => ReleaseStep(s, s', p)
    case CreateRefused => CreateRefusedStep(s, s', p)
    case Create(h, time) => CreateStep(s, s', p, h, time)
    case PutWrite(n) => PutWriteStep(c, s, s', p, n)
    case PutGiveUp => PutGiveUpStep(s, s', p)
    case AddSize => AddSizeStep(s, s', p)
    case RecordSum => RecordSumStep(s, s', p)
    case CloseOwn => CloseOwnStep(s, s', p)
    case OpenMissing => OpenMissingStep(s, s', p)
    case OpenExisting(h, ino) => OpenExistingStep(s, s', p, h, ino)
    case LockGranted(time) => LockGrantedStep(s, s', p, time)
    case LockRefused => LockRefusedStep(s, s', p)
    case TakeSize => TakeSizeStep(s, s', p)
    case Unlink => UnlinkStep(s, s', p)
    case UnlinkFails => UnlinkFailsStep(s, s', p)
    case RecordDeletion => RecordDeletionStep(s, s', p)
    case PurgeNotNeeded => PurgeNotNeededStep(c, s, s', p)
    case PurgeList(listing) => PurgeListStep(c, s, s', p, listing)
    case PurgeStat => PurgeStatStep(s, s', p)
    case PurgeStart => PurgeStartStep(s, s', p)
    case PurgeSkip => PurgeSkipStep(c, s, s', p)
    case PurgeTake(h, time) => PurgeTakeStep(c, s, s', p, h, time)
    case PurgeRemove => PurgeRemoveStep(s, s', p)
    case PurgeRemoveFails => PurgeRemoveFailsStep(s, s', p)
    case PurgeFinish => PurgeFinishStep(c, s, s', p)
    case CloseItem(h) => CloseItemStep(s, s', p, h)
    case WriteItem(h, n) => WriteItemStep(c, s, s', p, h, n)
    case ReadItem(h, time) => ReadItemStep(s, s', p, h, time)
  }

  ghost predicate Next(c: Config, s: State, s': State) {
    exists p, step :: NextStep(c, s, s', p, step)
  }

  ghost predicate Initial(s: State) {
    s == State([], 0, Free, map[])
  }

  /** A run of the system from an empty cache, any processes taking steps in any order. */
  ghost predicate IsRun(c: Config, run: seq<State>) {
    && run != [] && Initial(run[0])
    && forall i :: 0 <= i < |run| - 1 ==> Next(c, run[i], run[i + 1])
  }
}
