/**
What a run of the supervisor amounts to, read off its steps alone: how long sessions were healthy, what ended them,
and what serveNode returns (cmd/executor/main.go).
*/
module SupervisorHistory {
  import opened Supervisor
  import opened Wrappers

  /** One more step. */
  ghost predicate Extends(actions: seq<Action>, before: seq<Action>, a: Action) {
    actions != [] && actions[..|actions| - 1] == before && actions[|actions| - 1] == a
  }

  // ----- Times

  /** The clock. */
  function Ticks(actions: seq<Action>): nat {
    if actions == [] then 0
    else Ticks(actions[..|actions| - 1]) + if actions[|actions| - 1] == OutsideStep(Tick) then 1 else 0
  }

  /** When the current session published its readiness, if it did. */
  function ReadySince(actions: seq<Action>): Option<nat> {
    if actions == [] then None
    else
      var before := actions[..|actions| - 1];
      match actions[|actions| - 1]
      case NodeStep(CreateSession(true)) => None
      case OutsideStep(WriteRecord) => Some(Ticks(before))
      case OutsideStep(SkipRecord) => Some(Ticks(before))
      case _ => ReadySince(before)
  }

  /** How long the last session had been ready when it was joined. */
  function HealthyFor(actions: seq<Action>): int {
    if actions == [] then 0
    else
      var before := actions[..|actions| - 1];
      match actions[|actions| - 1]
      case NodeStep(CreateSession(true)) => 0
      case ServeStep(Conclude(_)) => if ReadySince(before).Some? then Ticks(before) - ReadySince(before).value else 0
      case _ => HealthyFor(before)
  }

  /** The same for the session before each wait. */
  function Healths(actions: seq<Action>): seq<int> {
    if actions == [] then []
    else
      var before := actions[..|actions| - 1];
      match actions[|actions| - 1]
      case NodeStep(Sleep(_, _)) => Healths(before) + [HealthyFor(before)]
      case _ => Healths(before)
  }

  ghost predicate TimesRead(w: World, actions: seq<Action>) {
    && w.around.clock == Ticks(actions)
    && w.session.readyAt == ReadySince(actions) && (w.session.readyAt.Some? ==> w.session.readyAt.value <= w.around.clock)
    && w.healthy == HealthyFor(actions)
    && |w.waits| == |Healths(actions)| && forall i | 0 <= i < |w.waits| :: w.waits[i].healthy == Healths(actions)[i]
  }

  lemma OutsideKeepsTimes(w: World, before: seq<Action>, a: Outside, actions: seq<Action>)
    requires TimesRead(w, before) && OutsideNext(w, a).Some?
    requires Extends(actions, before, OutsideStep(a))
    ensures TimesRead(OutsideNext(w, a).value, actions)
  {}

  lemma ServeKeepsTimes(w: World, before: seq<Action>, a: Serve, actions: seq<Action>)
    requires TimesRead(w, before) && ServeNext(w, a).Some?
    requires Extends(actions, before, ServeStep(a))
    ensures TimesRead(ServeNext(w, a).value, actions)
  {}

  lemma NodeKeepsTimes(w: World, before: seq<Action>, a: Node, actions: seq<Action>)
    requires TimesRead(w, before) && NodeNext(w, a).Some?
    requires Extends(actions, before, NodeStep(a))
    ensures TimesRead(NodeNext(w, a).value, actions)
  {}

  lemma ExitKeepsTimes(w: World, before: seq<Action>, a: Exit, actions: seq<Action>)
    requires TimesRead(w, before) && ExitNext(w, a).Some?
    requires Extends(actions, before, ExitStep(a))
    ensures TimesRead(ExitNext(w, a).value, actions)
  {}

  /** In every run the clock, the healthy time of the last session and those of all waits are what the steps say. */
  lemma {:induction false} TimesAreRead(publishes: bool, actions: seq<Action>)
    requires Play(publishes, actions).Some?
    ensures TimesRead(Play(publishes, actions).value, actions)
  {
    if actions != [] {
      var before := actions[..|actions| - 1];
      TimesAreRead(publishes, before);
      var w := Play(publishes, before).value;
      match actions[|actions| - 1]
      case OutsideStep(o) => OutsideKeepsTimes(w, before, o, actions);
      case ServeStep(s) => ServeKeepsTimes(w, before, s, actions);
      case NodeStep(n) => NodeKeepsTimes(w, before, n, actions);
      case ExitStep(e) => ExitKeepsTimes(w, before, e, actions);
    }
  }

  // ----- Retries

  /** Losses in a row up to the last, from 0 after each session that was healthy for at least 30 s. */
  function LossesInRow(healths: seq<int>): nat
    requires healths != []
  {
    if healths[|healths| - 1] >= 30_000_000_000 || |healths| == 1 then 0
    else LossesInRow(healths[..|healths| - 1]) + 1
  }

  lemma {:induction false} SameLosses(waits: seq<Wait>, healths: seq<int>)
    requires waits != [] && |waits| == |healths| && forall i | 0 <= i < |waits| :: waits[i].healthy == healths[i]
    ensures Losses(waits) == LossesInRow(healths)
    decreases |waits|
  {
    if |waits| > 1 { SameLosses(waits[..|waits| - 1], healths[..|healths| - 1]); }
  }

  /**
  Over every run only transport loss and lease expiry are retried; the i-th wait is bounded by 250 ms doubled once for
  each loss since the last session that was ready for 30 s before it was joined, at most 30 s, and lasts at least half
  its bound.
  */
  lemma RetryDiscipline(publishes: bool, actions: seq<Action>, w: World, i: nat)
    requires Play(publishes, actions) == Some(w) && i < |w.waits|
    ensures |w.waits| == |Healths(actions)|
    ensures w.waits[i].end in {Typed(TransportUnavailable), Typed(LeaseExpired)}
    ensures w.waits[i].maximum == Min(30_000_000_000, 250_000_000 * Pow2(LossesInRow(Healths(actions)[..i + 1])))
    ensures w.waits[i].maximum / 2 <= w.waits[i].delay <= w.waits[i].maximum
  {
    TimesAreRead(publishes, actions);
    WaitsFollow(publishes, actions, w, i);
    SameLosses(w.waits[..i + 1], Healths(actions)[..i + 1]);
  }

  // ----- Ends

  predicate CancelledIn(actions: seq<Action>) {
    actions != [] && (actions[|actions| - 1] == OutsideStep(CancelParent) || CancelledIn(actions[..|actions| - 1]))
  }

  /** What session.Run of the current session returned. */
  function RunError(actions: seq<Action>): End {
    if actions == [] then Nil
    else match actions[|actions| - 1]
      case NodeStep(CreateSession(true)) => Nil
      case OutsideStep(RunReturns(err)) => err
      case _ => RunError(actions[..|actions| - 1])
  }

  /** Why its resources were not ready or its record not written. */
  function ReadyError(actions: seq<Action>): End {
    if actions == [] then Nil
    else match actions[|actions| - 1]
      case NodeStep(CreateSession(true)) => Nil
      case OutsideStep(ResourcesFail(err)) => err
      case OutsideStep(WriteFails(_)) => Typed(LocalFailure)
      case _ => ReadyError(actions[..|actions| - 1])
  }

  /** Its record could not be removed. */
  predicate RemovalFailed(actions: seq<Action>) {
    actions != [] && match actions[|actions| - 1]
      case NodeStep(CreateSession(true)) => false
      case OutsideStep(RemoveRecord(false)) => true
      case _ => RemovalFailed(actions[..|actions| - 1])
  }

  /**
  The end of the current session: what was noticed first, unless the parent was cancelled by then; the session's own
  cause when it is joined; a local failure if its record stayed behind or nothing else is known.
  */
  function EndOf(actions: seq<Action>): End {
    if actions == [] then Nil
    else
      var before := actions[..|actions| - 1];
      match actions[|actions| - 1]
      case NodeStep(CreateSession(true)) => Nil
      case ServeStep(Choose(SessionLost(cause))) => cause
      case ServeStep(Choose(ParentDone)) => Typed(ParentStopped)
      case ServeStep(Choose(RunReturned)) => RunError(before)
      case ServeStep(Choose(ReadyFailed)) => if ReadyError(before).Typed? then ReadyError(before) else Typed(TransportUnavailable)
      case ServeStep(Check) => if CancelledIn(before) then Typed(ParentStopped) else EndOf(before)
      case ServeStep(Conclude(cause)) =>
        if RemovalFailed(before) then Typed(LocalFailure)
        else if cause != Nil then cause
        else if EndOf(before) != Nil then EndOf(before)
        else Typed(LocalFailure)
      case _ => EndOf(before)
  }

  ghost predicate CausesRead(w: World, actions: seq<Action>) {
    && w.around.cancelled == CancelledIn(actions)
    && (w.session.runner.RunDone? ==> w.session.runner.err == RunError(actions))
    && (w.session.readyFailed.Some? ==> w.session.readyFailed.value == ReadyError(actions))
    && w.session.removalFailed == RemovalFailed(actions)
  }

  ghost predicate EndRead(w: World, actions: seq<Action>) {
    CausesRead(w, actions) && w.end == EndOf(actions)
  }

  lemma OutsideKeepsCauses(w: World, before: seq<Action>, a: Outside, actions: seq<Action>)
    requires CausesRead(w, before) && OutsideNext(w, a).Some? && Extends(actions, before, OutsideStep(a))
    ensures CausesRead(OutsideNext(w, a).value, actions)
  {}

  lemma OutsideKeepsEnd(w: World, before: seq<Action>, a: Outside, actions: seq<Action>)
    requires EndRead(w, before) && OutsideNext(w, a).Some? && Extends(actions, before, OutsideStep(a))
    ensures OutsideNext(w, a).value.end == EndOf(actions)
  {}

  lemma ServeKeepsCauses(w: World, before: seq<Action>, a: Serve, actions: seq<Action>)
    requires CausesRead(w, before) && ServeNext(w, a).Some? && Extends(actions, before, ServeStep(a))
    ensures CausesRead(ServeNext(w, a).value, actions)
  {}

  lemma ServeKeepsEnd(w: World, before: seq<Action>, a: Serve, actions: seq<Action>)
    requires EndRead(w, before) && ServeNext(w, a).Some? && Extends(actions, before, ServeStep(a))
    ensures ServeNext(w, a).value.end == EndOf(actions)
  {}

  lemma NodeKeepsCauses(w: World, before: seq<Action>, a: Node, actions: seq<Action>)
    requires CausesRead(w, before) && NodeNext(w, a).Some? && Extends(actions, before, NodeStep(a))
    ensures CausesRead(NodeNext(w, a).value, actions)
  {}

  lemma NodeKeepsEnd(w: World, before: seq<Action>, a: Node, actions: seq<Action>)
    requires EndRead(w, before) && NodeNext(w, a).Some? && Extends(actions, before, NodeStep(a))
    ensures NodeNext(w, a).value.end == EndOf(actions)
  {}

  lemma ExitKeepsCauses(w: World, before: seq<Action>, a: Exit, actions: seq<Action>)
    requires CausesRead(w, before) && ExitNext(w, a).Some? && Extends(actions, before, ExitStep(a))
    ensures CausesRead(ExitNext(w, a).value, actions)
  {}

  lemma ExitKeepsEnd(w: World, before: seq<Action>, a: Exit, actions: seq<Action>)
    requires EndRead(w, before) && ExitNext(w, a).Some? && Extends(actions, before, ExitStep(a))
    ensures ExitNext(w, a).value.end == EndOf(actions)
  {}

  /** In every run the end serveSession reports is the one its steps call for. */
  lemma {:induction false} EndIsRead(publishes: bool, actions: seq<Action>)
    requires Play(publishes, actions).Some?
    ensures EndRead(Play(publishes, actions).value, actions)
  {
    if actions != [] {
      var before := actions[..|actions| - 1];
      EndIsRead(publishes, before);
      var w := Play(publishes, before).value;
      match actions[|actions| - 1]
      case OutsideStep(o) => OutsideKeepsCauses(w, before, o, actions); OutsideKeepsEnd(w, before, o, actions);
      case ServeStep(s) => ServeKeepsCauses(w, before, s, actions); ServeKeepsEnd(w, before, s, actions);
      case NodeStep(n) => NodeKeepsCauses(w, before, n, actions); NodeKeepsEnd(w, before, n, actions);
      case ExitStep(e) => ExitKeepsCauses(w, before, e, actions); ExitKeepsEnd(w, before, e, actions);
    }
  }

  /** A joined session is followed by a wait exactly if it ended in transport loss or lease expiry and nothing was cancelled. */
  lemma RetriedExactly(publishes: bool, actions: seq<Action>, w: World, w': World)
    requires Play(publishes, actions) == Some(w) && Next(w, NodeStep(Judge)) == Some(w')
    ensures w'.pc.Backoff? <==> !CancelledIn(actions) && EndOf(actions) in {Typed(TransportUnavailable), Typed(LeaseExpired)}
    ensures !w'.pc.Backoff? ==> w'.pc.Leave?
  {
    EndIsRead(publishes, actions);
  }

  // ----- The result

  /** serveNode left its loop in order: cancelled at its head, after a session that did not end fatally, or in a wait. */
  predicate LeftInOrder(actions: seq<Action>) {
    actions != [] &&
    var before := actions[..|actions| - 1];
    match actions[|actions| - 1]
    case NodeStep(Loop) => CancelledIn(before)
    case NodeStep(Judge) => CancelledIn(before) && EndOf(before) !in {Typed(LocalFailure), Typed(IncompatibleProfile)}
    case NodeStep(Sleep(_, ok)) => !ok && CancelledIn(before)
    case NodeStep(CreateSession(_)) => false
    case ServeStep(_) => false
    case _ => LeftInOrder(before)
  }

  /** The node or the storage could not be closed. */
  predicate CloseFailed(actions: seq<Action>) {
    actions != [] && match actions[|actions| - 1]
      case ExitStep(CloseTheNode(false)) => true
      case ExitStep(CloseTheStorage(false)) => true
      case _ => CloseFailed(actions[..|actions| - 1])
  }

  ghost predicate ResultRead(w: World, actions: seq<Action>) {
    && (!Exiting(w.pc) ==> !CloseFailed(actions))
    && (Exiting(w.pc) ==> (w.failed <==> !LeftInOrder(actions) || CloseFailed(actions)))
  }

  lemma OutsideKeepsResult(w: World, before: seq<Action>, a: Outside, actions: seq<Action>)
    requires ResultRead(w, before) && OutsideNext(w, a).Some? && Extends(actions, before, OutsideStep(a))
    ensures ResultRead(OutsideNext(w, a).value, actions)
  {}

  lemma ServeKeepsResult(w: World, before: seq<Action>, a: Serve, actions: seq<Action>)
    requires ResultRead(w, before) && ServeNext(w, a).Some? && Extends(actions, before, ServeStep(a))
    ensures ResultRead(ServeNext(w, a).value, actions)
  {}

  lemma NodeKeepsResult(w: World, before: seq<Action>, a: Node, actions: seq<Action>)
    requires EndRead(w, before) && ResultRead(w, before) && (w.pc.Decide? ==> !w.end.Nil?) && NodeNext(w, a).Some? && Extends(actions, before, NodeStep(a))
    ensures ResultRead(NodeNext(w, a).value, actions)
  {}

  lemma ExitKeepsResult(w: World, before: seq<Action>, a: Exit, actions: seq<Action>)
    requires ResultRead(w, before) && ExitNext(w, a).Some? && Extends(actions, before, ExitStep(a))
    ensures ResultRead(ExitNext(w, a).value, actions)
  {}

  lemma {:induction false} ResultIsRead(publishes: bool, actions: seq<Action>)
    requires Play(publishes, actions).Some?
    ensures ResultRead(Play(publishes, actions).value, actions)
  {
    if actions != [] {
      var before := actions[..|actions| - 1];
      ResultIsRead(publishes, before);
      EndIsRead(publishes, before);
      AlwaysInv(publishes, before);
      var w := Play(publishes, before).value;
      match actions[|actions| - 1]
      case OutsideStep(o) => OutsideKeepsResult(w, before, o, actions);
      case ServeStep(s) => ServeKeepsResult(w, before, s, actions);
      case NodeStep(n) => NodeKeepsResult(w, before, n, actions);
      case ExitStep(e) => ExitKeepsResult(w, before, e, actions);
    }
  }

  /** serveNode returns nil exactly if it left its loop in order and no close failed. */
  lemma NilExactly(publishes: bool, actions: seq<Action>, w: World)
    requires Play(publishes, actions) == Some(w) && w.pc == Returned
    ensures !w.failed <==> LeftInOrder(actions) && !CloseFailed(actions)
  {
    ResultIsRead(publishes, actions);
  }

  // ----- The shared resources

  /** Some session's Wait failed, or one of its goroutines did not end in time. */
  predicate JoinFailed(actions: seq<Action>) {
    actions != [] && match actions[|actions| - 1]
      case ServeStep(Join(false)) => true
      case ServeStep(JoinRunner(true)) => true
      case ServeStep(JoinReadiness(true)) => true
      case _ => JoinFailed(actions[..|actions| - 1])
  }

  function NodeCloses(actions: seq<Action>): nat {
    if actions == [] then 0
    else NodeCloses(actions[..|actions| - 1]) + match actions[|actions| - 1] case ExitStep(CloseTheNode(_)) => 1 case _ => 0
  }

  function StorageCloses(actions: seq<Action>): nat {
    if actions == [] then 0
    else StorageCloses(actions[..|actions| - 1]) + match actions[|actions| - 1] case ExitStep(CloseTheStorage(_)) => 1 case _ => 0
  }

  predicate NodeClosed(actions: seq<Action>) {
    actions != [] && (actions[|actions| - 1] == ExitStep(CloseTheNode(true)) || NodeClosed(actions[..|actions| - 1]))
  }

  ghost predicate ClosesRead(w: World, actions: seq<Action>) {
    && (JoinFailed(actions) <==>
          !w.clean && (Exiting(w.pc) || ((w.pc.JoinRun? || w.pc.JoinReady? || w.pc.Finish?) && w.session.cleanupFailed)))
    && w.closes.nodeCalls == NodeCloses(actions) && w.closes.storageCalls == StorageCloses(actions)
    && w.closes.nodeOk == NodeClosed(actions)
  }

  lemma OutsideKeepsCloses(w: World, before: seq<Action>, a: Outside, actions: seq<Action>)
    requires ClosesRead(w, before) && OutsideNext(w, a).Some? && Extends(actions, before, OutsideStep(a))
    ensures ClosesRead(OutsideNext(w, a).value, actions)
  {}

  lemma ServeKeepsCloses(w: World, before: seq<Action>, a: Serve, actions: seq<Action>)
    requires SessionsApart(w) && ClosesRead(w, before) && ServeNext(w, a).Some? && Extends(actions, before, ServeStep(a))
    ensures ClosesRead(ServeNext(w, a).value, actions)
  {}

  lemma NodeKeepsCloses(w: World, before: seq<Action>, a: Node, actions: seq<Action>)
    requires SessionsApart(w) && ClosesRead(w, before) && NodeNext(w, a).Some? && Extends(actions, before, NodeStep(a))
    ensures ClosesRead(NodeNext(w, a).value, actions)
  {}

  lemma ExitKeepsCloses(w: World, before: seq<Action>, a: Exit, actions: seq<Action>)
    requires ClosesInOrder(w) && ClosesRead(w, before) && ExitNext(w, a).Some? && Extends(actions, before, ExitStep(a))
    ensures ClosesRead(ExitNext(w, a).value, actions)
  {}

  lemma {:induction false} ClosesAreRead(publishes: bool, actions: seq<Action>)
    requires Play(publishes, actions).Some?
    ensures ClosesRead(Play(publishes, actions).value, actions)
  {
    if actions != [] {
      var before := actions[..|actions| - 1];
      ClosesAreRead(publishes, before);
      AlwaysInv(publishes, before);
      var w := Play(publishes, before).value;
      match actions[|actions| - 1]
      case OutsideStep(o) => OutsideKeepsCloses(w, before, o, actions);
      case ServeStep(s) => ServeKeepsCloses(w, before, s, actions);
      case NodeStep(n) => NodeKeepsCloses(w, before, n, actions);
      case ExitStep(e) => ExitKeepsCloses(w, before, e, actions);
    }
  }

  /** Once a session failed to join, nothing shared is ever closed, no session follows, and the return is an error. */
  lemma FailedJoinKeepsResources(publishes: bool, actions: seq<Action>, w: World)
    requires Play(publishes, actions) == Some(w) && JoinFailed(actions)
    ensures NodeCloses(actions) == 0 && StorageCloses(actions) == 0
    ensures !w.pc.Create? && (w.pc == Returned ==> w.failed)
  {
    AlwaysInv(publishes, actions);
    ClosesAreRead(publishes, actions);
  }

  /** When serveNode returns, the node was closed once unless a session failed to join, and the storage once if that succeeded. */
  lemma ClosedExactly(publishes: bool, actions: seq<Action>, w: World)
    requires Play(publishes, actions) == Some(w)
    ensures NodeCloses(actions) <= 1 && StorageCloses(actions) <= if NodeClosed(actions) then 1 else 0
    ensures w.pc == Returned ==> NodeCloses(actions) == if JoinFailed(actions) then 0 else 1
    ensures w.pc == Returned ==> StorageCloses(actions) == if NodeClosed(actions) then 1 else 0
  {
    AlwaysInv(publishes, actions);
    ClosesAreRead(publishes, actions);
  }

  // ----- The readiness record

  /** The record is on disk: written and not removed, or left there by a failed write that could not withdraw it. */
  predicate RecordThere(actions: seq<Action>) {
    actions != [] && match actions[|actions| - 1]
      case OutsideStep(WriteRecord) => true
      case OutsideStep(WriteFails(false)) => true
      case OutsideStep(RemoveRecord(true)) => false
      case _ => RecordThere(actions[..|actions| - 1])
  }

  /** Some failed write put its record there and could not withdraw it. */
  predicate Stranded(actions: seq<Action>) {
    actions != [] &&
    var before := actions[..|actions| - 1];
    Stranded(before) || (actions[|actions| - 1] == OutsideStep(WriteFails(false)) && !RecordThere(before))
  }

  ghost predicate RecordRead(w: World, actions: seq<Action>) {
    w.around.record == RecordThere(actions) && w.around.stranded == Stranded(actions)
  }

  lemma OutsideKeepsRecordRead(w: World, before: seq<Action>, a: Outside, actions: seq<Action>)
    requires RecordRead(w, before) && OutsideNext(w, a).Some? && Extends(actions, before, OutsideStep(a))
    ensures RecordRead(OutsideNext(w, a).value, actions)
  {}

  lemma OthersKeepRecordRead(w: World, before: seq<Action>, a: Action, actions: seq<Action>)
    requires RecordRead(w, before) && !a.OutsideStep? && Next(w, a).Some? && Extends(actions, before, a)
    ensures RecordRead(Next(w, a).value, actions)
  {
    match a
    case ServeStep(_) =>
    case NodeStep(_) =>
    case ExitStep(_) =>
  }

  lemma {:induction false} RecordIsRead(publishes: bool, actions: seq<Action>)
    requires Play(publishes, actions).Some?
    ensures RecordRead(Play(publishes, actions).value, actions)
  {
    if actions != [] {
      var before, a := actions[..|actions| - 1], actions[|actions| - 1];
      RecordIsRead(publishes, before);
      var w := Play(publishes, before).value;
      if a.OutsideStep? { OutsideKeepsRecordRead(w, before, a.o, actions); } else { OthersKeepRecordRead(w, before, a, actions); }
    }
  }

  /**
  When a session is created a record is there exactly if an earlier failed write stranded it; one that was published
  and could not be removed is never left for the next session.
  */
  lemma RecordAtSessionStart(publishes: bool, actions: seq<Action>, w: World, w': World)
    requires Play(publishes, actions) == Some(w) && Next(w, NodeStep(CreateSession(true))) == Some(w')
    ensures RecordThere(actions) <==> Stranded(actions)
    ensures !RemovalFailed(actions)
  {
    RecordAtCreation(publishes, actions, w, w');
    RecordIsRead(publishes, actions);
    EndIsRead(publishes, actions);
  }

  /** The readiness goroutine is told to end exactly when the session is stopped. */
  ghost predicate StopRead(w: World, publishes: bool) {
    && w.around.publishes == publishes
    && (w.pc.Select? || w.pc.CheckParent? || w.pc.StopSession? ==> !w.session.readyCancelled)
    && (w.pc.WaitSession? || w.pc.JoinRun? || w.pc.JoinReady? ==> w.session.readyCancelled)
  }

  lemma OutsideKeepsStop(w: World, a: Outside, publishes: bool)
    requires StopRead(w, publishes) && OutsideNext(w, a).Some?
    ensures StopRead(OutsideNext(w, a).value, publishes)
  {}

  lemma ServeKeepsStop(w: World, a: Serve, publishes: bool)
    requires StopRead(w, publishes) && ServeNext(w, a).Some?
    ensures StopRead(ServeNext(w, a).value, publishes)
  {}

  lemma NodeKeepsStop(w: World, a: Node, publishes: bool)
    requires StopRead(w, publishes) && NodeNext(w, a).Some?
    ensures StopRead(NodeNext(w, a).value, publishes)
  {}

  lemma ExitKeepsStop(w: World, a: Exit, publishes: bool)
    requires StopRead(w, publishes) && ExitNext(w, a).Some?
    ensures StopRead(ExitNext(w, a).value, publishes)
  {}

  lemma {:induction false} AlwaysStopRead(publishes: bool, actions: seq<Action>)
    requires Play(publishes, actions).Some?
    ensures StopRead(Play(publishes, actions).value, publishes)
  {
    if actions != [] {
      AlwaysStopRead(publishes, actions[..|actions| - 1]);
      var w := Play(publishes, actions[..|actions| - 1]).value;
      match actions[|actions| - 1]
      case OutsideStep(o) => OutsideKeepsStop(w, o, publishes);
      case ServeStep(s) => ServeKeepsStop(w, s, publishes);
      case NodeStep(n) => NodeKeepsStop(w, n, publishes);
      case ExitStep(e) => ExitKeepsStop(w, e, publishes);
    }
  }

  /** A published record stays while its session is up and the parent runs, and can be removed once the session is stopped. */
  lemma RecordLastsWhileUp(publishes: bool, actions: seq<Action>, w: World, ok: bool)
    requires Play(publishes, actions) == Some(w) && w.session.ready.Parked? && publishes
    ensures (w.pc.Select? || w.pc.CheckParent? || w.pc.StopSession?) && !CancelledIn(actions) ==>
      Next(w, OutsideStep(RemoveRecord(ok))).None?
    ensures w.pc.WaitSession? || w.pc.JoinRun? || w.pc.JoinReady? ==> Next(w, OutsideStep(RemoveRecord(ok))).Some?
  {
    AlwaysStopRead(publishes, actions);
    EndIsRead(publishes, actions);
  }
}
