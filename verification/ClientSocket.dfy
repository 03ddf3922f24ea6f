/** The client's socket protocol: requests serialised by a recursive mutex, nested requests of the
    same thread, and `stop` from any thread. One step is one critical section of the socket mutex,
    or one lock or unlock of the request mutex. */
module ClientSocket {
  import opened Options

  type Thread = nat

  /** An invocation of `send`: before `send_` (the first or the second attempt), with the request in
      flight, after it and before the scope exit, and when `send_` has returned. */
  datatype Frame =
    | Entered(retried: bool)
    | InFlight(retried: bool)
    | Leaving(retried: bool, close: bool)
    | Returned(retried: bool)

  /** `owner` and `frames` are the request mutex and its owner's invocations of `send`, innermost
      last; `stopped` remembers a `stop` with no request begun after it. */
  datatype Client = Client(
    owner: Option<Thread>,
    frames: seq<Frame>,
    open: bool,
    inFlight: nat,
    fromThread: Option<Thread>,
    shouldClose: bool,
    stopped: bool)

  const INITIAL := Client(None, [], false, 0, None, false, false)

  datatype Step =
    | Send
    | Begin(alive: bool, connects: bool)
    | CloseAfterResponse
    | RequestDone(close: bool)
    | ScopeExit
    | Retry
    | Return
    | Stop

  predicate Owns(s: Client, t: Thread) { s.owner == Some(t) && s.frames != [] }

  function Top(s: Client): Frame
    requires s.frames != []
  {
    s.frames[|s.frames| - 1]
  }

  function SetTop(s: Client, f: Frame): Client
    requires s.frames != []
  {
    s.(frames := s.frames[|s.frames| - 1 := f])
  }

  /** `send` locks the request mutex; a thread that has it sends again only from inside a request. */
  predicate SendStep(s: Client, s': Client, t: Thread) {
    && (s.owner == None || (Owns(s, t) && Top(s).InFlight?))
    && s' == s.(owner := Some(t), frames := s.frames + [Entered(false)])
  }

  /** The first critical section of `send_`. A socket that is no longer alive is closed, and a
      missing one is opened, which may fail. */
  predicate BeginStep(s: Client, s': Client, t: Thread, alive: bool, connects: bool) {
    && Owns(s, t) && Top(s).Entered? && (alive ==> s.open)
    && s' ==
       if !alive && !connects then
         SetTop(s, Returned(Top(s).retried)).(open := false, shouldClose := false, stopped := false)
       else
         SetTop(s, InFlight(Top(s).retried)).(open := true, shouldClose := false, stopped := false,
           inFlight := s.inFlight + 1, fromThread := Some(t))
  }

  /** `handle_request` closes the socket when the response asks for it. */
  predicate CloseAfterResponseStep(s: Client, s': Client, t: Thread) {
    && Owns(s, t) && Top(s).InFlight?
    && s' == s.(open := false)
  }

  /** `process_socket` returns; `close` is whether the connection is to be closed, or it failed. */
  predicate RequestDoneStep(s: Client, s': Client, t: Thread, close: bool) {
    && Owns(s, t) && Top(s).InFlight?
    && s' == SetTop(s, Leaving(Top(s).retried, close))
  }

  /** The scope exit of `send_`. */
  predicate ScopeExitStep(s: Client, s': Client, t: Thread) {
    && Owns(s, t) && Top(s).Leaving? && s.inFlight > 0
    && var left := s.inFlight - 1;
    && s' == SetTop(s, Returned(Top(s).retried)).(
         inFlight := left,
         fromThread := if left == 0 then None else s.fromThread,
         open := s.open && !s.shouldClose && !Top(s).close)
  }

  /** `send` tries a second time when the peer could have closed the connection. */
  predicate RetryStep(s: Client, s': Client, t: Thread) {
    && Owns(s, t) && Top(s) == Returned(false)
    && s' == SetTop(s, Entered(true))
  }

  predicate ReturnStep(s: Client, s': Client, t: Thread) {
    && Owns(s, t) && Top(s).Returned?
    && var left := s.frames[..|s.frames| - 1];
    && s' == s.(frames := left, owner := if left == [] then None else s.owner)
  }

  /** `stop`, from any thread. With a request in flight it only shuts the socket down and asks for it
      to be closed later. */
  predicate StopStep(s: Client, s': Client, t: Thread) {
    s' == if s.inFlight > 0 then s.(shouldClose := true, stopped := true) else s.(open := false, stopped := true)
  }

  predicate NextStep(s: Client, s': Client, t: Thread, step: Step) {
    match step
    case Send => SendStep(s, s', t)
    case Begin(alive, connects) => BeginStep(s, s', t, alive, connects)
    case CloseAfterResponse => CloseAfterResponseStep(s, s', t)
    case RequestDone(close) => RequestDoneStep(s, s', t, close)
    case ScopeExit => ScopeExitStep(s, s', t)
    case Retry => RetryStep(s, s', t)
    case Return => ReturnStep(s, s', t)
    case Stop => StopStep(s, s', t)
  }

  ghost predicate Next(s: Client, s': Client) {
    exists t, step :: NextStep(s, s', t, step)
  }

  ghost predicate IsRun(run: seq<Client>) {
    && run != [] && run[0] == INITIAL
    && forall i :: 0 <= i < |run| - 1 ==> Next(run[i], run[i + 1])
  }

  // ---- Assertions of the code ----

  /** The assertion in `close_socket` and `shutdown_ssl`. */
  predicate MayClose(inFlight: nat, fromThread: Option<Thread>, t: Thread) {
    inFlight == 0 || fromThread == Some(t)
  }

  /** Whether a step calls `close_socket`, and what the counter and the thread are at that point. */
  predicate ClosesSocket(s: Client, step: Step)
    requires step.Begin? || step.ScopeExit? ==> s.frames != []
  {
    match step
    case Begin(alive, _) => s.open && !alive
    case CloseAfterResponse => true
    case ScopeExit => s.shouldClose || (Top(s).Leaving? && Top(s).close)
    case Stop => s.inFlight == 0
    case _ => false
  }

  predicate AssertionHolds(s: Client, s': Client, t: Thread, step: Step) {
    match step
    case ScopeExit => MayClose(s'.inFlight, s'.fromThread, t)
    case _ => MayClose(s.inFlight, s.fromThread, t)
  }

  // ---- Invariant ----

  predicate Counts(f: Frame) { f.InFlight? || f.Leaving? }

  /** How many of the owner's invocations of `send` have a request in flight. */
  function NestingDepth(frames: seq<Frame>): nat {
    if frames == [] then 0
    else NestingDepth(frames[..|frames| - 1]) + if Counts(frames[|frames| - 1]) then 1 else 0
  }

  predicate Inv(s: Client) {
    && (s.owner == None <==> s.frames == [])
    && (forall i :: 0 <= i < |s.frames| - 1 ==> s.frames[i].InFlight?)
    && s.inFlight == NestingDepth(s.frames)
    && (s.inFlight > 0 ==> s.fromThread == s.owner)
    && (s.inFlight == 0 ==> s.fromThread == None)
    && (s.stopped ==> s.shouldClose || !s.open)
    && (s.shouldClose ==> s.stopped)
  }

  lemma SetTopDepth(s: Client, f: Frame)
    requires s.frames != []
    ensures NestingDepth(SetTop(s, f).frames)
         == NestingDepth(s.frames[..|s.frames| - 1]) + if Counts(f) then 1 else 0
  {
    assert SetTop(s, f).frames[..|s.frames| - 1] == s.frames[..|s.frames| - 1];
  }

  lemma PushDepth(frames: seq<Frame>, f: Frame)
    ensures NestingDepth(frames + [f]) == NestingDepth(frames) + if Counts(f) then 1 else 0
  {
    assert (frames + [f])[..|frames|] == frames;
  }

  /** All but the innermost invocation have a request in flight. */
  lemma {:induction false} DepthOfNested(frames: seq<Frame>)
    requires forall i :: 0 <= i < |frames| ==> frames[i].InFlight?
    ensures NestingDepth(frames) == |frames|
  {
    if frames != [] {
      DepthOfNested(frames[..|frames| - 1]);
    }
  }

  /** The innermost invocation changes; the others keep their requests in flight. */
  lemma SetTopNested(s: Client, f: Frame)
    requires s.frames != [] && forall i :: 0 <= i < |s.frames| - 1 ==> s.frames[i].InFlight?
    ensures var frames := SetTop(s, f).frames;
            |frames| == |s.frames| && forall i :: 0 <= i < |frames| - 1 ==> frames[i].InFlight?
  {
  }

  lemma SendKeeps(s: Client, s': Client, t: Thread)
    requires Inv(s) && SendStep(s, s', t)
    ensures Inv(s')
  {
    PushDepth(s.frames, Entered(false));
  }

  lemma BeginKeeps(s: Client, s': Client, t: Thread, alive: bool, connects: bool)
    requires Inv(s) && BeginStep(s, s', t, alive, connects)
    ensures Inv(s')
  {
    SetTopDepth(s, Top(s));
    assert SetTop(s, Top(s)).frames == s.frames;
    SetTopDepth(s, Returned(Top(s).retried));
    SetTopDepth(s, InFlight(Top(s).retried));
  }

  lemma RequestDoneKeeps(s: Client, s': Client, t: Thread, close: bool)
    requires Inv(s) && RequestDoneStep(s, s', t, close)
    ensures Inv(s')
  {
    SetTopDepth(s, Leaving(Top(s).retried, close));
    SetTopNested(s, Leaving(Top(s).retried, close));
  }

  lemma ScopeExitKeeps(s: Client, s': Client, t: Thread)
    requires Inv(s) && ScopeExitStep(s, s', t)
    ensures Inv(s')
  {
    SetTopDepth(s, Returned(Top(s).retried));
    SetTopNested(s, Returned(Top(s).retried));
  }

  lemma RetryKeeps(s: Client, s': Client, t: Thread)
    requires Inv(s) && RetryStep(s, s', t)
    ensures Inv(s')
  {
    SetTopDepth(s, Entered(true));
    SetTopNested(s, Entered(true));
  }

  lemma ReturnKeeps(s: Client, s': Client, t: Thread)
    requires Inv(s) && ReturnStep(s, s', t)
    ensures Inv(s')
  {
  }

  lemma StepKeeps(s: Client, s': Client, t: Thread, step: Step)
    requires Inv(s) && NextStep(s, s', t, step)
    ensures Inv(s')
  {
    match step
    case Send => SendKeeps(s, s', t);
    case Begin(alive, connects) => BeginKeeps(s, s', t, alive, connects);
    case CloseAfterResponse =>
    case RequestDone(close) => RequestDoneKeeps(s, s', t, close);
    case ScopeExit => ScopeExitKeeps(s, s', t);
    case Retry => RetryKeeps(s, s', t);
    case Return => ReturnKeeps(s, s', t);
    case Stop =>
  }

  /** In every reachable state the in-flight count is the nesting depth of the mutex owner's
      requests, and it belongs to the owner. */
  lemma {:induction false} ReachableInv(run: seq<Client>, i: nat)
    requires IsRun(run) && i < |run|
    ensures Inv(run[i])
  {
    if i > 0 {
      ReachableInv(run, i - 1);
      assert Next(run[i - 1], run[i - 1 + 1]);
      var t, step :| NextStep(run[i - 1], run[i], t, step);
      StepKeeps(run[i - 1], run[i], t, step);
    }
  }

  /** What the count is, frame by frame. */
  lemma InFlightIsDepth(run: seq<Client>, i: nat)
    requires IsRun(run) && i < |run| && run[i].frames != []
    ensures run[i].inFlight == |run[i].frames| - if Counts(Top(run[i])) then 0 else 1
  {
    ReachableInv(run, i);
    var s := run[i];
    DepthOfNested(s.frames[..|s.frames| - 1]);
  }

  /** Safety: whatever the interleaving, the assertion before closing the socket never fails, nor
      the one before a request is counted; and a thread that closes the socket while requests are
      in flight is the one that owns them. */
  lemma AssertionsNeverFail(run: seq<Client>, i: nat, t: Thread, step: Step)
    requires IsRun(run) && i + 1 < |run| && NextStep(run[i], run[i + 1], t, step)
    ensures ClosesSocket(run[i], step) ==> AssertionHolds(run[i], run[i + 1], t, step)
    ensures ClosesSocket(run[i], step) && run[i].inFlight > 0 ==> run[i].owner == Some(t)
    ensures step.Begin? && run[i].inFlight > 1 ==> run[i].fromThread == Some(t)
    ensures run[i].open && !run[i + 1].open ==> ClosesSocket(run[i], step)
  {
    ReachableInv(run, i);
    ReachableInv(run, i + 1);
  }

  /** After the last scope exit a request to close has been obeyed. */
  lemma {:induction false} NothingPending(run: seq<Client>, i: nat)
    requires IsRun(run) && i < |run|
    ensures run[i].inFlight == 0 && run[i].shouldClose ==> !run[i].open
  {
    if i > 0 {
      NothingPending(run, i - 1);
      ReachableInv(run, i - 1);
      assert Next(run[i - 1], run[i - 1 + 1]);
      var t, step :| NextStep(run[i - 1], run[i], t, step);
    }
  }

  datatype Action = Action(thread: Thread, step: Step)

  /** A run together with what its threads did. */
  ghost predicate IsRunOf(run: seq<Client>, actions: seq<Action>) {
    && |run| == |actions| + 1 && run[0] == INITIAL
    && forall i :: 0 <= i < |actions| ==> NextStep(run[i], run[i + 1], actions[i].thread, actions[i].step)
  }

  /** There has been a `stop`, and no request has begun since. */
  predicate StopPending(actions: seq<Action>) {
    actions != [] &&
    var n := |actions| - 1;
    actions[n].step.Stop? || (!actions[n].step.Begin? && StopPending(actions[..n]))
  }

  lemma RunOfIsRun(run: seq<Client>, actions: seq<Action>)
    requires IsRunOf(run, actions)
    ensures IsRun(run)
  {
    forall i | 0 <= i < |run| - 1
      ensures Next(run[i], run[i + 1])
    {
      assert NextStep(run[i], run[i + 1], actions[i].thread, actions[i].step);
    }
  }

  lemma {:induction false} StoppedMeansPending(run: seq<Client>, actions: seq<Action>, i: nat)
    requires IsRunOf(run, actions) && i < |run|
    ensures run[i].stopped <==> StopPending(actions[..i])
  {
    if i > 0 {
      StoppedMeansPending(run, actions, i - 1);
      assert actions[..i][..i - 1] == actions[..i - 1];
      assert NextStep(run[i - 1], run[i - 1 + 1], actions[i - 1].thread, actions[i - 1].step);
    }
  }

  /** Whether the last request that is done asked for its connection to be closed, or failed. */
  predicate LastCloses(actions: seq<Action>) {
    actions != [] &&
    var n := |actions| - 1;
    if actions[n].step.RequestDone? then actions[n].step.close else LastCloses(actions[..n])
  }

  /** The request that is leaving is the last one that is done. */
  predicate LeavingFits(s: Client, actions: seq<Action>) {
    s.frames != [] && Top(s).Leaving? ==> Top(s).close == LastCloses(actions)
  }

  lemma LeavingStep(s: Client, s': Client, t: Thread, step: Step)
    requires Inv(s) && NextStep(s, s', t, step) && s'.frames != [] && Top(s').Leaving?
    ensures if step.RequestDone? then Top(s').close == step.close else s.frames == s'.frames
  {
  }

  lemma LeavingKept(s: Client, s': Client, actions: seq<Action>, before: seq<Action>)
    requires actions != [] && before == actions[..|actions| - 1] && Inv(s) && LeavingFits(s, before)
    requires NextStep(s, s', actions[|actions| - 1].thread, actions[|actions| - 1].step)
    ensures LeavingFits(s', actions)
  {
    if s'.frames != [] && Top(s').Leaving? {
      LeavingStep(s, s', actions[|actions| - 1].thread, actions[|actions| - 1].step);
    }
  }

  lemma {:induction false} LeavingIsLast(run: seq<Client>, actions: seq<Action>, i: nat)
    requires IsRunOf(run, actions) && i < |run|
    ensures LeavingFits(run[i], actions[..i])
  {
    if i > 0 {
      LeavingIsLast(run, actions, i - 1);
      RunOfIsRun(run, actions);
      ReachableInv(run, i - 1);
      assert actions[..i][..i - 1] == actions[..i - 1];
      assert NextStep(run[i - 1], run[i - 1 + 1], actions[i - 1].thread, actions[i - 1].step);
      LeavingKept(run[i - 1], run[i], actions[..i], actions[..i - 1]);
    }
  }

  /** What the scope exit of a request does to its connection, in every run: it is open afterwards if and
      only if it was, the request asked to keep it, and no request, nested ones included, has begun
      since a `stop`, if there was one. */
  lemma ScopeExitKeepsIff(run: seq<Client>, actions: seq<Action>, i: nat)
    requires IsRunOf(run, actions) && i < |actions| && actions[i].step.ScopeExit?
    ensures run[i + 1].open <==> run[i].open && !LastCloses(actions[..i]) && !StopPending(actions[..i])
  {
    RunOfIsRun(run, actions);
    ReachableInv(run, i);
    StoppedMeansPending(run, actions, i);
    LeavingIsLast(run, actions, i);
    assert NextStep(run[i], run[i + 1], actions[i].thread, actions[i].step);
  }

  // ---- The socket, read off the actions ----

  /** A request that gets a connection. */
  predicate Connected(step: Step) { step.Begin? && (step.alive || step.connects) }

  /** How many requests have got a connection and not given it back. */
  function Pending(actions: seq<Action>): int {
    if actions == [] then 0
    else
      var n := |actions| - 1;
      Pending(actions[..n]) + if Connected(actions[n].step) then 1 else if actions[n].step.ScopeExit? then -1 else 0
  }

  /** Whether the socket is open, without flags and frames: from what the threads did. */
  predicate SocketOpen(actions: seq<Action>) {
    actions != [] &&
    var n := |actions| - 1;
    var before := actions[..n];
    match actions[n].step
    case Begin(alive, connects) => alive || connects
    case CloseAfterResponse => false
    case ScopeExit => SocketOpen(before) && !LastCloses(before) && !StopPending(before)
    case Stop => SocketOpen(before) && Pending(before) > 0
    case _ => SocketOpen(before)
  }

  lemma {:induction false} PendingIsInFlight(run: seq<Client>, actions: seq<Action>, i: nat)
    requires IsRunOf(run, actions) && i < |run|
    ensures run[i].inFlight == Pending(actions[..i])
  {
    if i > 0 {
      PendingIsInFlight(run, actions, i - 1);
      assert actions[..i][..i - 1] == actions[..i - 1];
      assert NextStep(run[i - 1], run[i - 1 + 1], actions[i - 1].thread, actions[i - 1].step);
    }
  }

  /** In every run the socket is open exactly when the actions say so. */
  lemma {:induction false} OpenIff(run: seq<Client>, actions: seq<Action>, i: nat)
    requires IsRunOf(run, actions) && i < |run|
    ensures run[i].open <==> SocketOpen(actions[..i])
  {
    if i > 0 {
      OpenIff(run, actions, i - 1);
      var before := actions[..i - 1];
      assert actions[..i][..i - 1] == before;
      if actions[i - 1].step.ScopeExit? {
        ScopeExitKeepsIff(run, actions, i - 1);
      } else {
        PendingIsInFlight(run, actions, i - 1);
        assert NextStep(run[i - 1], run[i - 1 + 1], actions[i - 1].thread, actions[i - 1].step);
      }
    }
  }

  /** A connection that the response asked to be closed stays closed until the next request begins. */
  lemma {:induction false} ClosedUntilBegin(run: seq<Client>, actions: seq<Action>, i: nat, j: nat)
    requires IsRunOf(run, actions) && i < j < |run| && actions[i].step.CloseAfterResponse?
    requires forall k :: i < k < j ==> !actions[k].step.Begin?
    ensures !run[j].open
    decreases j
  {
    assert NextStep(run[j - 1], run[j - 1 + 1], actions[j - 1].thread, actions[j - 1].step);
    if i < j - 1 {
      ClosedUntilBegin(run, actions, i, j - 1);
    }
  }

  // ---- Attempts ----

  function Begins(actions: seq<Action>): nat {
    if actions == [] then 0
    else Begins(actions[..|actions| - 1]) + if actions[|actions| - 1].step.Begin? then 1 else 0
  }

  function Sends(actions: seq<Action>): nat {
    if actions == [] then 0
    else Sends(actions[..|actions| - 1]) + if actions[|actions| - 1].step.Send? then 1 else 0
  }

  /** How often an invocation of `send` may still begin. */
  function Attempts(f: Frame): nat {
    if f == Entered(false) then 2 else if f.Entered? || !f.retried then 1 else 0
  }

  function AttemptsLeft(frames: seq<Frame>): nat {
    if frames == [] then 0 else AttemptsLeft(frames[..|frames| - 1]) + Attempts(frames[|frames| - 1])
  }

  lemma AttemptsStep(s: Client, s': Client, t: Thread, step: Step)
    requires NextStep(s, s', t, step)
    ensures AttemptsLeft(s'.frames) + (if step.Begin? then 1 else 0)
         <= AttemptsLeft(s.frames) + if step.Send? then 2 else 0
  {
    if step.Send? {
      assert s'.frames[..|s.frames|] == s.frames;
    } else if s'.frames != s.frames && !step.Return? {
      assert s'.frames[..|s.frames| - 1] == s.frames[..|s.frames| - 1];
    }
  }

  /** An invocation of `send` tries at most twice. */
  lemma {:induction false} AtMostTwoAttempts(run: seq<Client>, actions: seq<Action>, i: nat)
    requires IsRunOf(run, actions) && i < |run|
    ensures Begins(actions[..i]) + AttemptsLeft(run[i].frames) <= 2 * Sends(actions[..i])
  {
    if i > 0 {
      AtMostTwoAttempts(run, actions, i - 1);
      assert actions[..i][..i - 1] == actions[..i - 1];
      AttemptsStep(run[i - 1], run[i - 1 + 1], actions[i - 1].thread, actions[i - 1].step);
    }
  }

  // ---- Progress ----

  ghost predicate Possible(s: Client, t: Thread, step: Step) {
    exists s' :: NextStep(s, s', t, step)
  }

  /** How an invocation of `send` goes on. */
  function NextOf(f: Frame, alive: bool, connects: bool, close: bool): Step {
    match f
    case Entered(_) => Begin(alive, connects)
    case InFlight(_) => RequestDone(close)
    case Leaving(_, _) => ScopeExit
    case Returned(_) => Return
  }

  /** In every reachable state the thread inside a request can go on, whatever the network does; if there
      is none, any thread can send; and `stop` never waits. */
  lemma CanGoOn(run: seq<Client>, i: nat, t: Thread, alive: bool, connects: bool, close: bool)
    requires IsRun(run) && i < |run| && (alive ==> run[i].open)
    ensures Possible(run[i], t, Stop)
    ensures run[i].owner == None ==> Possible(run[i], t, Send)
    ensures run[i].owner == Some(t) ==>
              run[i].frames != [] && Possible(run[i], t, NextOf(Top(run[i]), alive, connects, close))
    ensures run[i].owner == Some(t) && Top(run[i]) == Returned(false) ==> Possible(run[i], t, Retry)
  {
    ReachableInv(run, i);
    var s := run[i];
    assert NextStep(s, if s.inFlight > 0 then s.(shouldClose := true, stopped := true)
                       else s.(open := false, stopped := true), t, Stop);
    if s.owner == None {
      assert NextStep(s, s.(owner := Some(t), frames := s.frames + [Entered(false)]), t, Send);
    } else if s.owner == Some(t) {
      OwnerGoesOn(s, t, alive, connects, close);
      if Top(s) == Returned(false) {
        assert NextStep(s, SetTop(s, Entered(true)), t, Retry);
      }
    }
  }

  lemma OwnerGoesOn(s: Client, t: Thread, alive: bool, connects: bool, close: bool)
    requires Inv(s) && s.owner == Some(t) && (alive ==> s.open)
    ensures Possible(s, t, NextOf(Top(s), alive, connects, close))
  {
    match Top(s)
    case Entered(retried) =>
      assert NextStep(s, if !alive && !connects then
                           SetTop(s, Returned(retried)).(open := false, shouldClose := false, stopped := false)
                         else
                           SetTop(s, InFlight(retried)).(open := true, shouldClose := false, stopped := false,
                             inFlight := s.inFlight + 1, fromThread := Some(t)),
                      t, Begin(alive, connects));
    case InFlight(retried) =>
      assert NextStep(s, SetTop(s, Leaving(retried, close)), t, RequestDone(close));
    case Leaving(retried, keep) =>
      var left := s.inFlight - 1;
      assert NextStep(s, SetTop(s, Returned(retried)).(
                           inFlight := left,
                           fromThread := if left == 0 then None else s.fromThread,
                           open := s.open && !s.shouldClose && !keep), t, ScopeExit);
    case Returned(_) =>
      var left := s.frames[..|s.frames| - 1];
      assert NextStep(s, s.(frames := left, owner := if left == [] then None else s.owner), t, Return);
  }

  /** A `stop` takes effect: with no request begun since, the socket is closed once nothing is in
      flight. */
  lemma StopCloses(run: seq<Client>, actions: seq<Action>, i: nat)
    requires IsRunOf(run, actions) && i < |run|
    requires StopPending(actions[..i]) && run[i].inFlight == 0
    ensures !run[i].open
  {
    RunOfIsRun(run, actions);
    StoppedMeansPending(run, actions, i);
    ReachableInv(run, i);
    NothingPending(run, i);
  }

  /** The other case happens: a redirect followed inside the request forgets the `stop` that
      came before it. At the end nothing is in flight and the socket is open. */
  lemma NestedRequestForgetsStop() returns (run: seq<Client>)
    ensures IsRun(run) && |run| == 11
    ensures run[2].inFlight == 1 && run[2].open && StopStep(run[2], run[3], 1)
    ensures run[10].frames != [] && Top(run[10]) == Returned(false) && run[10].owner == Some(0)
    ensures run[10].inFlight == 0 && run[10].open
  {
    run := StoppedAndNested();
    run := UnwoundOpen(run);
  }

  /** One more step of a run. */
  lemma Extended(run: seq<Client>, s: Client, t: Thread, step: Step) returns (longer: seq<Client>)
    requires IsRun(run) && NextStep(run[|run| - 1], s, t, step)
    ensures IsRun(longer) && longer == run + [s]
  {
    longer := run + [s];
    forall i | 0 <= i < |longer| - 1
      ensures Next(longer[i], longer[i + 1])
    {
      if i < |run| - 1 {
        assert Next(run[i], run[i + 1]);
      }
    }
  }

  /** A request is in flight, another thread stops it, and a nested request begins. */
  lemma StoppedAndNested() returns (run: seq<Client>)
    ensures IsRun(run) && |run| == 6
    ensures run[2].inFlight == 1 && run[2].open && StopStep(run[2], run[3], 1)
    ensures run[5] == Client(Some(0), [InFlight(false), InFlight(false)], true, 2, Some(0), false, false)
  {
    var s2 := Client(Some(0), [InFlight(false)], true, 1, Some(0), false, false);
    var s3 := s2.(shouldClose := true, stopped := true);
    run := [INITIAL];
    run := Extended(run, Client(Some(0), [Entered(false)], false, 0, None, false, false), 0, Send);
    run := Extended(run, s2, 0, Begin(false, true));
    run := Extended(run, s3, 1, Stop);
    run := Extended(run, s3.(frames := [InFlight(false), Entered(false)]), 0, Send);
    run := Extended(run, Client(Some(0), [InFlight(false), InFlight(false)], true, 2, Some(0), false, false), 0,
                    Begin(false, true));
  }

  /** Both requests end, and the socket stays open. */
  lemma UnwoundOpen(start: seq<Client>) returns (run: seq<Client>)
    requires IsRun(start) && |start| == 6
    requires start[5] == Client(Some(0), [InFlight(false), InFlight(false)], true, 2, Some(0), false, false)
    ensures IsRun(run) && |run| == 11 && run[..6] == start
    ensures run[10].frames != [] && Top(run[10]) == Returned(false) && run[10].owner == Some(0)
    ensures run[10].inFlight == 0 && run[10].open
  {
    var s5 := start[5];
    var s8 := s5.(frames := [InFlight(false)], inFlight := 1);
    run := Extended(start, s5.(frames := [InFlight(false), Leaving(false, false)]), 0, RequestDone(false));
    run := Extended(run, s5.(frames := [InFlight(false), Returned(false)], inFlight := 1), 0, ScopeExit);
    run := Extended(run, s8, 0, Return);
    run := Extended(run, s8.(frames := [Leaving(false, false)]), 0, RequestDone(false));
    run := Extended(run, s8.(frames := [Returned(false)], inFlight := 0, fromThread := None), 0, ScopeExit);
  }
}
