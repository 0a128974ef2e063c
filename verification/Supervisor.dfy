/**
The executor's supervisor (cmd/executor/main.go, serveNode and serveSession) as steps: the supervisor itself,
the two goroutines of a session, and whatever its surroundings do in between.
*/
module Supervisor {
  import opened Wrappers

  // ----- Ends, backoff and waiting

  datatype EndKind = TransportUnavailable | LeaseExpired | ParentStopped | IncompatibleProfile | LocalFailure

  /** An error value: nil, one that carries a session end kind, or any other. */
  datatype End = Nil | Typed(kind: EndKind) | Untyped

  const MILLISECOND: nat := 1_000_000
  const SECOND: nat := 1_000 * MILLISECOND
  const FIRST_BACKOFF: nat := 250 * MILLISECOND
  const MAX_BACKOFF: nat := 30 * SECOND
  const HEALTHY: nat := 30 * SECOND

  function Min(a: nat, b: nat): nat {
    if a < b then a else b
  }

  function Pow2(k: nat): nat {
    if k == 0 then 1 else 2 * Pow2(k - 1)
  }

  /** How long the supervisor waits for a random draw below maximum - maximum/2 + 1. */
  function Delay(maximum: nat, draw: nat): nat {
    maximum / 2 + draw
  }

  predicate IsDraw(maximum: nat, draw: nat) {
    draw < maximum - maximum / 2 + 1
  }

  /** The delays that can be drawn are exactly those from half the bound to the bound. */
  lemma DelayRange(maximum: nat, delay: nat)
    ensures (exists draw: nat :: IsDraw(maximum, draw) && Delay(maximum, draw) == delay)
       <==> maximum / 2 <= delay <= maximum
  {
    if maximum / 2 <= delay <= maximum {
      var draw: nat := delay - maximum / 2;
      assert IsDraw(maximum, draw) && Delay(maximum, draw) == delay;
    }
  }

  /** The wait bound after k losses in a row: 250 ms doubled k times, at most 30 s. */
  function Bound(k: nat): nat {
    Min(MAX_BACKOFF, FIRST_BACKOFF * Pow2(k))
  }

  lemma BoundDoubles(k: nat)
    ensures Min(MAX_BACKOFF, Bound(k) * 2) == Bound(k + 1)
  {}

  predicate Retried(end: End) {
    end.Typed? && (end.kind.TransportUnavailable? || end.kind.LeaseExpired?)
  }

  predicate Fatal(end: End) {
    end.Typed? && (end.kind.LocalFailure? || end.kind.IncompatibleProfile?)
  }

  // ----- The state

  /** The goroutine around session.Run, with the error it returned. */
  datatype Runner = NotStarted | Running | RunDone(err: End)

  /** The readiness goroutine; Parked has published its record and waits to be cancelled. */
  datatype Ready = Idle | WaitingResources | Writing | Parked | ReadyDone

  /** Where the supervisor is: the loop of serveNode, the body of serveSession, and the deferred closes. */
  datatype Pc =
    | Top | Create
    | Select | CheckParent | StopSession | WaitSession | JoinRun | JoinReady | Finish
    | Decide | Backoff
    | Leave | CloseNode | CloseStorage | Returned

  /** One reconnect wait: what ended the session, how long it was healthy, the bound and the delay. */
  datatype Wait = Wait(end: End, healthy: nat, maximum: nat, delay: nat)

  /** The variables of one serveSession. */
  datatype Session = Session(runner: Runner, ready: Ready, readyFailed: Option<End>, readyCancelled: bool,
                             readyAt: Option<nat>, removalFailed: bool, cleanupFailed: bool)

  const NO_SESSION := Session(NotStarted, Idle, None, false, None, false, false)
  const NEW_SESSION := Session(Running, WaitingResources, None, false, None, false, false)

  /** The deferred closes that were called, and that succeeded. */
  datatype Closes = Closes(nodeCalls: nat, nodeOk: bool, storageCalls: nat, storageOk: bool)

  /**
  The surroundings: whether a readiness file is configured, time, the parent context, the readiness record, and
  whether a failed write of it could not be withdrawn.
  */
  datatype Around = Around(publishes: bool, clock: nat, cancelled: bool, record: bool, stranded: bool)

  /** The variables of serveNode, the session and the surroundings, and a log of what happened. */
  datatype World = World(pc: Pc, clean: bool, backoff: nat, end: End, healthy: nat, failed: bool,
                         session: Session, around: Around,
                         created: nat, joined: nat, waits: seq<Wait>, closes: Closes)

  function Start(publishes: bool): World {
    World(Top, true, FIRST_BACKOFF, Nil, 0, false, NO_SESSION, Around(publishes, 0, false, false, false),
          0, 0, [], Closes(0, false, 0, false))
  }

  /** Which case of the select fires, with the cause a lost session reports. */
  datatype Case = SessionLost(cause: End) | ParentDone | RunReturned | ReadyFailed

  /** What the surroundings and the session's goroutines do. */
  datatype Outside =
    | Tick | CancelParent
    | RunReturns(err: End)
    | ResourcesReady | ResourcesFail(err: End)
    | WriteRecord | WriteFails(withdrawn: bool) | RemoveRecord(ok: bool) | SkipRecord | EndUnrecorded

  /** The steps of serveSession. */
  datatype Serve =
    | Choose(selected: Case) | Check | Stop | Join(ok: bool) | JoinRunner(timeout: bool) | JoinReadiness(timeout: bool)
    | Conclude(cause: End)

  /** The steps of serveNode's loop. */
  datatype Node = Loop | CreateSession(ok: bool) | Judge | Sleep(draw: nat, ok: bool)

  /** The steps of its deferred closes. */
  datatype Exit = Defer | CloseTheNode(ok: bool) | CloseTheStorage(ok: bool)

  datatype Action = OutsideStep(o: Outside) | ServeStep(s: Serve) | NodeStep(n: Node) | ExitStep(e: Exit)

  // ----- Steps

  /** The readiness goroutine sees its context done. */
  predicate ReadyStopped(w: World) {
    w.session.readyCancelled || w.around.cancelled
  }

  function ReadyReports(w: World, err: End): World {
    w.(session := w.session.(ready := ReadyDone, readyFailed := Some(err)))
  }

  /** The end a select case yields. */
  function Selected(w: World, c: Case): End {
    match c
    case SessionLost(cause) => cause
    case ParentDone => Typed(ParentStopped)
    case RunReturned => if w.session.runner.RunDone? then w.session.runner.err else Nil
    case ReadyFailed =>
      if w.session.readyFailed.None? then Nil
      else if w.session.readyFailed.value.Typed? then w.session.readyFailed.value
      else Typed(TransportUnavailable)
  }

  predicate CanSelect(w: World, c: Case) {
    match c
    case SessionLost(_) => true
    case ParentDone => w.around.cancelled
    case RunReturned => w.session.runner.RunDone?
    case ReadyFailed => w.session.readyFailed.Some?
  }

  /** The end a joined session is reported with. */
  function Concluded(w: World, cause: End): End {
    var end := if cause.Nil? then w.end else cause;
    if w.session.removalFailed || end.Nil? then Typed(LocalFailure) else end
  }

  /** Leaving serveNode with an error or with nil; the deferred closes come next. */
  function Leaving(w: World, failed: bool): World {
    w.(pc := Leave, failed := failed)
  }

  /** What serveNode does with the end of a joined session. */
  function Judged(w: World): World {
    if Fatal(w.end) then Leaving(w, true)
    else if w.around.cancelled then Leaving(w, false)
    else if !Retried(w.end) then Leaving(w, !w.end.Nil?)
    else w.(pc := Backoff, backoff := if w.healthy >= HEALTHY then FIRST_BACKOFF else w.backoff)
  }

  function OutsideNext(w: World, a: Outside): Option<World> {
    match a
    case Tick => Some(w.(around := w.around.(clock := w.around.clock + 1)))
    case CancelParent => Some(w.(around := w.around.(cancelled := true)))
    case RunReturns(err) => if w.session.runner.Running? then Some(w.(session := w.session.(runner := RunDone(err)))) else None
    case ResourcesReady => if w.session.ready.WaitingResources? then Some(w.(session := w.session.(ready := Writing))) else None
    case ResourcesFail(err) => if w.session.ready.WaitingResources? && !err.Nil? then Some(ReadyReports(w, err)) else None
    case WriteRecord =>
      if w.session.ready.Writing? && w.around.publishes && !w.around.record then 
        Some(w.(session := w.session.(ready := Parked, readyAt := Some(w.around.clock)),
                around := w.around.(record := true)))
      else None
    case WriteFails(withdrawn) =>
      if !w.session.ready.Writing? || !w.around.publishes then None
      else if withdrawn || w.around.record then Some(ReadyReports(w, Typed(LocalFailure)))
      else Some(ReadyReports(w, Typed(LocalFailure)).(around := w.around.(record := true, stranded := true)))
    case RemoveRecord(ok) =>
      if !w.session.ready.Parked? || !w.around.publishes || !ReadyStopped(w) then None
      else if ok then Some(w.(session := w.session.(ready := ReadyDone), around := w.around.(record := false)))
      else Some(w.(session := w.session.(ready := ReadyDone, removalFailed := true)))
    case SkipRecord =>
      if w.session.ready.Writing? && !w.around.publishes then
        Some(w.(session := w.session.(ready := Parked, readyAt := Some(w.around.clock))))
      else None
    case EndUnrecorded =>
      if w.session.ready.Parked? && !w.around.publishes && ReadyStopped(w)
      then Some(w.(session := w.session.(ready := ReadyDone))) else None
  }

  function ServeNext(w: World, a: Serve): Option<World> {
    match a
    case Choose(c) =>
      if w.pc.Select? && CanSelect(w, c) then Some(w.(pc := CheckParent, end := Selected(w, c))) else None
    case Check =>
      if !w.pc.CheckParent? then None
      else Some(w.(pc := StopSession, end := if w.around.cancelled then Typed(ParentStopped) else w.end))
    case Stop => if w.pc.StopSession? then Some(w.(pc := WaitSession, session := w.session.(readyCancelled := true))) else None
    case Join(ok) => if w.pc.WaitSession? then Some(w.(pc := JoinRun, session := w.session.(cleanupFailed := !ok))) else None
    case JoinRunner(timeout) =>
      if !w.pc.JoinRun? then None
      else if timeout then Some(Leaving(w.(session := w.session.(cleanupFailed := true)), true))
      else if w.session.runner.RunDone? then Some(w.(pc := JoinReady)) else None
    case JoinReadiness(timeout) =>
      if !w.pc.JoinReady? then None
      else if timeout then Some(Leaving(w.(session := w.session.(cleanupFailed := true)), true))
      else if w.session.ready.ReadyDone? then Some(w.(pc := Finish)) else None
    case Conclude(cause) =>
      if !w.pc.Finish? then None
      else
        var healthy := if w.session.readyAt.Some? && w.session.readyAt.value <= w.around.clock then w.around.clock - w.session.readyAt.value else 0;
        var w' := w.(end := Concluded(w, cause), healthy := healthy);
        if w.session.cleanupFailed then Some(Leaving(w', true))
        else Some(w'.(pc := Decide, clean := true, joined := w.joined + 1))
  }

  function NodeNext(w: World, a: Node): Option<World> {
    match a
    case Loop => if !w.pc.Top? then None else if w.around.cancelled then Some(Leaving(w, false)) else Some(w.(pc := Create))
    case CreateSession(ok) =>
      if !w.pc.Create? then None
      else if !ok then Some(Leaving(w, true))
      else Some(w.(pc := Select, clean := false, created := w.created + 1, session := NEW_SESSION, end := Nil, healthy := 0))
    case Judge => if w.pc.Decide? then Some(Judged(w)) else None
    case Sleep(draw, ok) =>
      if !w.pc.Backoff? || !IsDraw(w.backoff, draw) then None
      else
        var w' := w.(waits := w.waits + [Wait(w.end, w.healthy, w.backoff, Delay(w.backoff, draw))]);
        if !ok then Some(Leaving(w', !w.around.cancelled))
        else Some(w'.(pc := Top, backoff := Min(MAX_BACKOFF, w.backoff * 2)))
  }

  function ExitNext(w: World, a: Exit): Option<World> {
    match a
    case Defer => if !w.pc.Leave? then None else Some(w.(pc := if w.clean then CloseNode else Returned))
    case CloseTheNode(ok) =>
      if !w.pc.CloseNode? then None
      else if ok then Some(w.(pc := CloseStorage, closes := w.closes.(nodeCalls := w.closes.nodeCalls + 1, nodeOk := true)))
      else Some(w.(pc := Returned, closes := w.closes.(nodeCalls := w.closes.nodeCalls + 1), failed := true))
    case CloseTheStorage(ok) =>
      if !w.pc.CloseStorage? then None
      else Some(w.(pc := Returned, failed := w.failed || !ok,
                   closes := w.closes.(storageCalls := w.closes.storageCalls + 1, storageOk := ok)))
  }

  function Next(w: World, a: Action): Option<World> {
    match a
    case OutsideStep(o) => OutsideNext(w, o)
    case ServeStep(s) => ServeNext(w, s)
    case NodeStep(n) => NodeNext(w, n)
    case ExitStep(e) => ExitNext(w, e)
  }

  /** The world after some steps, if each of them was possible. */
  function Play(publishes: bool, actions: seq<Action>): Option<World> {
    if actions == [] then Some(Start(publishes))
    else match Play(publishes, actions[..|actions| - 1])
      case None => None
      case Some(w) => Next(w, actions[|actions| - 1])
  }

  // ----- The invariant

  predicate InSession(pc: Pc) {
    pc.Select? || pc.CheckParent? || pc.StopSession? || pc.WaitSession? || pc.JoinRun? || pc.JoinReady? || pc.Finish?
  }

  predicate Exiting(pc: Pc) {
    pc.Leave? || pc.CloseNode? || pc.CloseStorage? || pc.Returned?
  }

  /** No goroutine of a session is left. */
  predicate Quiet(w: World) {
    (w.session.runner.NotStarted? || w.session.runner.RunDone?) && (w.session.ready.Idle? || w.session.ready.ReadyDone?)
  }

  /** Sessions: one at a time, and shared resources are marked clean exactly while none is unjoined. */
  predicate SessionsApart(w: World) {
    && w.created == w.joined + (if w.clean then 0 else 1)
    && (w.clean ==> Quiet(w))
    && (InSession(w.pc) ==> !w.clean)
    && (!w.clean ==> InSession(w.pc) || w.pc.Leave? || w.pc.Returned?)
    && (w.pc.JoinReady? || w.pc.Finish? ==> w.session.runner.RunDone?)
    && (w.pc.Finish? ==> w.session.ready.ReadyDone?)
    && (!w.clean && Exiting(w.pc) ==> w.failed)
  }

  /** The readiness record: whose it is when it is there. */
  predicate RecordOwned(w: World) {
    && (w.session.ready.Parked? && w.around.publishes ==> w.around.record && !w.around.stranded)
    && (w.around.record ==> w.around.publishes)
    && (w.around.record && !w.around.stranded ==> w.session.ready.Parked? || (w.session.removalFailed && w.session.ready.ReadyDone?))
    && (w.around.stranded ==> w.around.record)
    && (w.session.removalFailed ==> w.around.record && !w.around.stranded && w.session.ready.ReadyDone?)
    && (w.pc.Decide? && w.session.removalFailed ==> w.end == Typed(LocalFailure))
    && (w.pc.Top? || w.pc.Create? || w.pc.Backoff? ==> !w.session.removalFailed)
  }

  /** Ends: a joined session has one, and the loop goes on only after one that may be retried. */
  predicate EndsKnown(w: World) {
    && (w.pc.Decide? ==> !w.end.Nil?)
    && (w.pc.Backoff? ==> Retried(w.end))
    && (Exiting(w.pc) && !w.failed ==> w.around.cancelled && w.clean)
  }

  /** The deferred closes, in order and at most once. */
  predicate ClosesInOrder(w: World) {
    && w.closes.nodeCalls == (if w.clean && (w.pc.CloseStorage? || w.pc.Returned?) then 1 else 0)
    && w.closes.storageCalls == (if w.pc.Returned? && w.closes.nodeOk then 1 else 0)
    && (w.closes.nodeOk ==> w.clean && (w.pc.CloseStorage? || w.pc.Returned?))
    && (w.pc.CloseStorage? ==> w.closes.nodeOk)
    && (w.closes.storageOk ==> w.pc.Returned? && w.closes.nodeOk)
    && (w.pc.Returned? && !w.failed ==> w.closes.nodeOk && w.closes.storageOk)
  }

  predicate Inv(w: World) {
    SessionsApart(w) && RecordOwned(w) && EndsKnown(w) && ClosesInOrder(w)
  }

  lemma OutsideKeepsRecord(w: World, a: Outside)
    requires Inv(w) && OutsideNext(w, a).Some?
    ensures RecordOwned(OutsideNext(w, a).value)
  {}

  lemma OutsideKeepsRest(w: World, a: Outside)
    requires Inv(w) && OutsideNext(w, a).Some?
    ensures var w' := OutsideNext(w, a).value; SessionsApart(w') && EndsKnown(w') && ClosesInOrder(w')
  {}

  lemma OutsideKeepsInv(w: World, a: Outside)
    requires Inv(w) && OutsideNext(w, a).Some?
    ensures Inv(OutsideNext(w, a).value)
  {
    var w' := OutsideNext(w, a).value;
    assert RecordOwned(w') by { OutsideKeepsRecord(w, a); }
    assert SessionsApart(w') && EndsKnown(w') && ClosesInOrder(w') by { OutsideKeepsRest(w, a); }
  }

  lemma ServeKeepsInv(w: World, a: Serve)
    requires Inv(w) && ServeNext(w, a).Some?
    ensures Inv(ServeNext(w, a).value)
  {}

  lemma NodeKeepsRecord(w: World, a: Node)
    requires Inv(w) && NodeNext(w, a).Some?
    ensures RecordOwned(NodeNext(w, a).value)
  {}

  lemma NodeKeepsRest(w: World, a: Node)
    requires Inv(w) && NodeNext(w, a).Some?
    ensures var w' := NodeNext(w, a).value; SessionsApart(w') && EndsKnown(w') && ClosesInOrder(w')
  {}

  lemma NodeKeepsInv(w: World, a: Node)
    requires Inv(w) && NodeNext(w, a).Some?
    ensures Inv(NodeNext(w, a).value)
  {
    var w' := NodeNext(w, a).value;
    assert RecordOwned(w') by { NodeKeepsRecord(w, a); }
    assert SessionsApart(w') && EndsKnown(w') && ClosesInOrder(w') by { NodeKeepsRest(w, a); }
  }

  lemma ExitKeepsInv(w: World, a: Exit)
    requires Inv(w) && ExitNext(w, a).Some?
    ensures Inv(ExitNext(w, a).value)
  {}

  lemma {:induction false} AlwaysInv(publishes: bool, actions: seq<Action>)
    requires Play(publishes, actions).Some?
    ensures Inv(Play(publishes, actions).value)
  {
    if actions != [] {
      AlwaysInv(publishes, actions[..|actions| - 1]);
      var w := Play(publishes, actions[..|actions| - 1]).value;
      match actions[|actions| - 1]
      case OutsideStep(o) => OutsideKeepsInv(w, o);
      case ServeStep(s) => ServeKeepsInv(w, s);
      case NodeStep(n) => NodeKeepsInv(w, n);
      case ExitStep(e) => ExitKeepsInv(w, e);
    }
  }

  // ----- Resource safety over whole runs

  /** A session is created only after every earlier one joined and none of its goroutines is left. */
  lemma SessionsNeverOverlap(publishes: bool, actions: seq<Action>, w: World, w': World)
    requires Play(publishes, actions) == Some(w) && Next(w, NodeStep(CreateSession(true))) == Some(w')
    ensures w.created == w.joined && Quiet(w) && w.clean
  {
    AlwaysInv(publishes, actions);
  }

  /** While a session has not joined, and forever if it never does, neither the node nor the storage is closed. */
  lemma UnjoinedKeepsResources(publishes: bool, actions: seq<Action>, w: World)
    requires Play(publishes, actions) == Some(w) && w.created != w.joined
    ensures w.closes.nodeCalls == 0 && w.closes.storageCalls == 0
  {
    AlwaysInv(publishes, actions);
  }

  /** Each resource is closed at most once, and always if every session joined; the storage exactly after the node closed without error and no goroutine is left. */
  lemma ClosesOnceInOrder(publishes: bool, actions: seq<Action>, w: World)
    requires Play(publishes, actions) == Some(w)
    ensures w.closes.nodeCalls <= 1 && w.closes.storageCalls <= w.closes.nodeCalls
    ensures w.closes.storageCalls == 1 ==> w.closes.nodeOk
    ensures w.closes.nodeCalls == 1 ==> w.created == w.joined && Quiet(w)
    ensures w.pc == Returned ==> (w.closes.nodeCalls == 1 <==> w.created == w.joined)
    ensures w.pc == Returned ==> (w.closes.storageCalls == 1 <==> w.closes.nodeOk)
  {
    AlwaysInv(publishes, actions);
  }

  /** serveNode returns nil only if its context was cancelled and both closes succeeded. */
  lemma NilOnlyWhenCancelledAndClosed(publishes: bool, actions: seq<Action>, w: World)
    requires Play(publishes, actions) == Some(w) && w.pc == Returned && !w.failed
    ensures w.around.cancelled && w.closes == Closes(1, true, 1, true) && w.created == w.joined
  {
    AlwaysInv(publishes, actions);
  }

  /** A joined session never ends without a cause. */
  lemma JoinedHasEnd(publishes: bool, actions: seq<Action>, w: World)
    requires Play(publishes, actions) == Some(w) && w.pc == Decide
    ensures !w.end.Nil? && w.joined == w.created
  {
    AlwaysInv(publishes, actions);
  }

  // ----- What ends the retries

  /** The n-th session is the last one: it cannot end in a way that is retried, and the error stays visible. */
  predicate Last(w: World, n: nat) {
    w.created == n &&
    ( || (InSession(w.pc) && w.session.removalFailed)
      || (w.pc.Decide? && Fatal(w.end))
      || (Exiting(w.pc) && w.failed))
  }

  lemma LastStaysOutside(w: World, a: Outside, n: nat)
    requires Last(w, n) && OutsideNext(w, a).Some?
    ensures Last(OutsideNext(w, a).value, n)
  {}

  lemma LastStaysInSession(w: World, a: Serve, n: nat)
    requires Last(w, n) && ServeNext(w, a).Some?
    ensures Last(ServeNext(w, a).value, n)
  {}

  lemma LastStays(w: World, a: Action, n: nat)
    requires Last(w, n) && Next(w, a).Some?
    ensures Last(Next(w, a).value, n)
  {
    match a
    case OutsideStep(o) => LastStaysOutside(w, o, n);
    case ServeStep(s) => LastStaysInSession(w, s, n);
    case _ =>
  }

  lemma {:induction false} LastForever(publishes: bool, actions: seq<Action>, more: seq<Action>, n: nat)
    requires Play(publishes, actions).Some? && Last(Play(publishes, actions).value, n)
    requires Play(publishes, actions + more).Some?
    ensures Last(Play(publishes, actions + more).value, n)
    decreases |more|
  {
    if more == [] {
      assert actions + more == actions;
    } else {
      var before := more[..|more| - 1];
      assert (actions + more)[..|actions + more| - 1] == actions + before;
      LastForever(publishes, actions, before, n);
      LastStays(Play(publishes, actions + before).value, more[|more| - 1], n);
    }
  }

  /**
  A fatal end, a readiness record that could not be removed, or a session that did not join is never retried, and
  serveNode returns an error whatever else happens, the parent being cancelled included.
  */
  lemma FatalStaysVisible(publishes: bool, actions: seq<Action>, more: seq<Action>, w: World, w': World)
    requires Play(publishes, actions) == Some(w) && Play(publishes, actions + more) == Some(w')
    requires (w.pc.Decide? && Fatal(w.end)) || (InSession(w.pc) && w.session.removalFailed) || (Exiting(w.pc) && !w.clean)
    ensures w'.created == w.created && (w'.pc.Returned? ==> w'.failed)
  {
    AlwaysInv(publishes, actions);
    LastForever(publishes, actions, more, w.created);
    assert w'.pc.Returned? ==> !InSession(w'.pc) && !w'.pc.Decide?;
  }

  // ----- The readiness record

  /**
  When a session is created a readiness record of an earlier one is there exactly if a failed write left its
  record behind; a record that was published and could not be removed ends the retries.
  */
  lemma RecordAtCreation(publishes: bool, actions: seq<Action>, w: World, w': World)
    requires Play(publishes, actions) == Some(w) && Next(w, NodeStep(CreateSession(true))) == Some(w')
    ensures w.around.record <==> w.around.stranded
    ensures !w.session.removalFailed
  {
    AlwaysInv(publishes, actions);
  }

  lemma OneMore(actions: seq<Action>, w: World, a: Action) returns (more: seq<Action>, w': World)
    requires Play(true, actions) == Some(w) && Next(w, a).Some?
    ensures more == actions + [a] && Next(w, a) == Some(w') && Play(true, more) == Some(w')
  {
    more, w' := actions + [a], Next(w, a).value;
    assert more[..|actions|] == actions;
  }

  /** A session whose record is written, cannot be withdrawn, and which is then reported lost. */
  lemma LosesWithStrandedRecord() returns (actions: seq<Action>, w: World)
    ensures Play(true, actions) == Some(w)
    ensures w.pc == CheckParent && w.end == Typed(TransportUnavailable) && w.created == 1
    ensures w.around == Around(true, 0, false, true, true) && w.session.runner.RunDone? && w.session.ready == ReadyDone
    ensures w.session.readyAt.None? && !w.session.removalFailed
  {
    actions, w := OneMore([], Start(true), NodeStep(Loop));
    actions, w := OneMore(actions, w, NodeStep(CreateSession(true)));
    actions, w := OneMore(actions, w, OutsideStep(ResourcesReady));
    actions, w := OneMore(actions, w, OutsideStep(WriteFails(false)));
    actions, w := OneMore(actions, w, OutsideStep(RunReturns(Untyped)));
    actions, w := OneMore(actions, w, ServeStep(Choose(SessionLost(Typed(TransportUnavailable)))));
  }

  /** It joins and is reported with its own cause, which may be retried. */
  lemma JoinsWithStrandedRecord() returns (actions: seq<Action>, w: World)
    ensures Play(true, actions) == Some(w)
    ensures w.pc == Decide && w.end == Typed(TransportUnavailable) && w.created == 1
    ensures w.around == Around(true, 0, false, true, true)
  {
    actions, w := LosesWithStrandedRecord();
    actions, w := OneMore(actions, w, ServeStep(Check));
    actions, w := OneMore(actions, w, ServeStep(Stop));
    actions, w := OneMore(actions, w, ServeStep(Join(true)));
    actions, w := OneMore(actions, w, ServeStep(JoinRunner(false)));
    actions, w := OneMore(actions, w, ServeStep(JoinReadiness(false)));
    actions, w := OneMore(actions, w, ServeStep(Conclude(Typed(TransportUnavailable))));
  }

  /** The condition above is needed: this run starts a second session while the first one's record is still there. */
  lemma StrandedRecordMeetsNextSession() returns (actions: seq<Action>, w: World)
    ensures Play(true, actions) == Some(w)
    ensures w.created == 2 && w.session == NEW_SESSION && w.around.record
  {
    actions, w := JoinsWithStrandedRecord();
    actions, w := OneMore(actions, w, NodeStep(Judge));
    actions, w := OneMore(actions, w, NodeStep(Sleep(0, true)));
    actions, w := OneMore(actions, w, NodeStep(Loop));
    actions, w := OneMore(actions, w, NodeStep(CreateSession(true)));
  }

  // ----- Retries

  /** Losses in a row up to the last wait, not counting the one a healthy session starts over with. */
  function Losses(waits: seq<Wait>): nat
    requires waits != []
  {
    if waits[|waits| - 1].healthy >= HEALTHY || |waits| == 1 then 0 else Losses(waits[..|waits| - 1]) + 1
  }

  /** What the next loss would be counted as if its session was not healthy. */
  function Pending(waits: seq<Wait>): nat {
    if waits == [] then 0 else Losses(waits) + 1
  }

  /** Each wait follows an end that may be retried, has the bound its losses call for, and a delay in the upper half. */
  ghost predicate Disciplined(waits: seq<Wait>) {
    waits == [] ||
    (Disciplined(waits[..|waits| - 1]) && var last := waits[|waits| - 1];
      && last.maximum == Bound(Losses(waits)) && Retried(last.end)
      && last.maximum / 2 <= last.delay <= last.maximum)
  }

  ghost predicate BackoffFollows(w: World) {
    && Disciplined(w.waits)
    && (w.pc.Backoff? ==> w.backoff == if w.healthy >= HEALTHY then FIRST_BACKOFF else Bound(Pending(w.waits)))
    && (!w.pc.Backoff? && !Exiting(w.pc) ==> w.backoff == Bound(Pending(w.waits)))
  }

  lemma WaitFollows(waits: seq<Wait>, next: Wait)
    requires Disciplined(waits) && Retried(next.end) && next.maximum / 2 <= next.delay <= next.maximum
    requires next.maximum == if next.healthy >= HEALTHY then FIRST_BACKOFF else Bound(Pending(waits))
    ensures Disciplined(waits + [next]) && next.maximum == Bound(Losses(waits + [next]))
    ensures Min(MAX_BACKOFF, next.maximum * 2) == Bound(Pending(waits + [next]))
  {
    assert (waits + [next])[..|waits|] == waits;
    BoundDoubles(Losses(waits + [next]));
  }

  lemma NodeKeepsBackoff(w: World, a: Node)
    requires Inv(w) && BackoffFollows(w) && NodeNext(w, a).Some?
    ensures BackoffFollows(NodeNext(w, a).value)
  {
    if a.Sleep? { WaitFollows(w.waits, Wait(w.end, w.healthy, w.backoff, Delay(w.backoff, a.draw))); }
  }

  /** What the waits depend on is left alone, and the wait is not entered. */
  ghost predicate KeepsWaits(w: World, w': World) {
    && w'.waits == w.waits && w'.backoff == w.backoff
    && w'.pc.Backoff? == w.pc.Backoff? && (Exiting(w.pc) ==> Exiting(w'.pc))
    && (w'.pc.Backoff? ==> w'.healthy == w.healthy)
  }

  lemma OutsideKeepsWaits(w: World, a: Outside)
    requires OutsideNext(w, a).Some?
    ensures KeepsWaits(w, OutsideNext(w, a).value)
  {}

  lemma ServeKeepsWaits(w: World, a: Serve)
    requires ServeNext(w, a).Some?
    ensures KeepsWaits(w, ServeNext(w, a).value)
  {}

  lemma ExitKeepsWaits(w: World, a: Exit)
    requires ExitNext(w, a).Some?
    ensures KeepsWaits(w, ExitNext(w, a).value)
  {}

  lemma StepKeepsBackoff(w: World, a: Action)
    requires Inv(w) && BackoffFollows(w) && Next(w, a).Some?
    ensures BackoffFollows(Next(w, a).value)
  {
    match a
    case OutsideStep(o) => OutsideKeepsWaits(w, o);
    case ServeStep(s) => ServeKeepsWaits(w, s);
    case NodeStep(n) => NodeKeepsBackoff(w, n);
    case ExitStep(e) => ExitKeepsWaits(w, e);
  }

  lemma {:induction false} AlwaysDisciplined(publishes: bool, actions: seq<Action>)
    requires Play(publishes, actions).Some?
    ensures BackoffFollows(Play(publishes, actions).value)
  {
    if actions != [] {
      var before := actions[..|actions| - 1];
      AlwaysDisciplined(publishes, before);
      AlwaysInv(publishes, before);
      StepKeepsBackoff(Play(publishes, before).value, actions[|actions| - 1]);
    }
  }

  lemma {:induction false} DisciplinedAt(waits: seq<Wait>, i: nat)
    requires Disciplined(waits) && i < |waits|
    ensures Retried(waits[i].end) && waits[i].maximum == Bound(Losses(waits[..i + 1]))
    ensures waits[i].maximum / 2 <= waits[i].delay <= waits[i].maximum
    decreases |waits|
  {
    if i == |waits| - 1 {
      assert waits[..i + 1] == waits;
    } else {
      DisciplinedAt(waits[..|waits| - 1], i);
      assert waits[..|waits| - 1][..i + 1] == waits[..i + 1];
    }
  }

  /** In every run each recorded wait follows the discipline. */
  lemma WaitsFollow(publishes: bool, actions: seq<Action>, w: World, i: nat)
    requires Play(publishes, actions) == Some(w) && i < |w.waits|
    ensures Retried(w.waits[i].end)
    ensures w.waits[i].maximum == Min(MAX_BACKOFF, FIRST_BACKOFF * Pow2(Losses(w.waits[..i + 1])))
    ensures w.waits[i].maximum / 2 <= w.waits[i].delay <= w.waits[i].maximum
  {
    AlwaysDisciplined(publishes, actions);
    DisciplinedAt(w.waits, i);
  }
}
