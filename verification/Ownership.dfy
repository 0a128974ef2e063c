/**
Who closes an accepted connection (cmd/dispatcher/main.go, connectionListener and ownedConn): every
interleaving of Accept, listener Close and connection Close, as steps of any number of threads.
*/
module Ownership {
  import opened Wrappers

  type Thread = nat
  type Conn = nat

  /** The sync.Once of an owned connection. */
  datatype Once = Idle | Running(owner: Thread) | Done

  /** The body of a listener Close after its list is taken, and of a connection Close inside its once. */
  datatype ClosingStep = Unlocking | ClosingListener | ClosingConns
  datatype OnceStep = RawClose | WantDelete | Delete | DeleteUnlock | OnceExit

  /** Where a thread is. `rest` is the list of the listener Close a connection Close was called from, if any. */
  datatype Pc =
    | AcceptCall
    | Accepted(c: Conn)
    | AcceptLocked(c: Conn)
    | AcceptUnlock
    | CloseCall
    | CloseLocked
    | Closing(at: ClosingStep, todo: set<Conn>)
    | CloseReturned
    | OnceEnter(c: Conn, rest: Option<set<Conn>>)
    | InOnce(c: Conn, step: OnceStep, rest: Option<set<Conn>>)
    | Returned

  /** The listener's own fields. */
  datatype Listener = Listener(closed: bool, conns: set<Conn>, mutex: Option<Thread>)

  /** What happened: how often each connection ever accepted was closed underneath, and which thread accepted it. */
  datatype Log = Log(closes: map<Conn, nat>, acceptor: map<Conn, Thread>)

  /** The listener, the once of every owned connection, the threads, and the log. */
  datatype World = World(l: Listener, once: map<Conn, Once>, threads: map<Thread, Pc>, log: Log)

  const START := World(Listener(false, {}, None), map[], map[], Log(map[], map[]))

  // ----- Steps

  /** A thread starts one of the three calls, or goes on; `choice` is an accepted connection or the next of a range loop. */
  datatype Action = StartAccept(t: Thread) | StartClose(t: Thread) | StartConnClose(t: Thread, c: Conn)
                  | Go(t: Thread, choice: Option<Conn>)

  function At(w: World, t: Thread, pc: Pc): World {
    w.(threads := w.threads[t := pc])
  }

  /** After an owned connection's Close returns. */
  function After(c: Conn, rest: Option<set<Conn>>): Pc {
    match rest
    case None => Returned
    case Some(todo) => Closing(ClosingConns, todo - {c})
  }

  /** Between taking and giving back the mutex. */
  predicate Holds(pc: Pc) {
    || pc.AcceptLocked? || pc.AcceptUnlock? || pc.CloseLocked? || (pc.Closing? && pc.at.Unlocking?)
    || (pc.InOnce? && (pc.step.Delete? || pc.step.DeleteUnlock?))
  }

  /** Where a running thread goes, or None where it blocks, has returned, or the choice does not apply. */
  function Target(w: World, pc: Pc, choice: Option<Conn>): Option<Pc> {
    match pc
    case AcceptCall =>
      if choice.None? then Some(Returned)
      else if choice.value in w.log.closes then None
      else Some(Accepted(choice.value))
    case Accepted(c) => if w.l.mutex.Some? then None else Some(AcceptLocked(c))
    case AcceptLocked(c) => if c in w.log.closes then Some(AcceptUnlock) else None
    case AcceptUnlock => Some(Returned)
    case CloseCall => if w.l.mutex.Some? then None else Some(CloseLocked)
    case CloseLocked => Some(Closing(Unlocking, w.l.conns))
    case Closing(Unlocking, todo) => Some(Closing(ClosingListener, todo))
    case Closing(ClosingListener, todo) => Some(Closing(ClosingConns, todo))
    case Closing(ClosingConns, todo) =>
      if todo == {} then Some(CloseReturned)
      else if choice.Some? && choice.value in todo then Some(OnceEnter(choice.value, Some(todo)))
      else None
    case OnceEnter(c, rest) =>
      if c !in w.once || w.once[c].Running? then None
      else if w.once[c].Done? then Some(After(c, rest))
      else Some(InOnce(c, RawClose, rest))
    case InOnce(c, RawClose, rest) => if c in w.log.closes then Some(InOnce(c, WantDelete, rest)) else None
    case InOnce(c, WantDelete, rest) => if w.l.mutex.Some? then None else Some(InOnce(c, Delete, rest))
    case InOnce(c, Delete, rest) => Some(InOnce(c, DeleteUnlock, rest))
    case InOnce(c, DeleteUnlock, rest) => Some(InOnce(c, OnceExit, rest))
    case InOnce(c, OnceExit, rest) => Some(After(c, rest))
    case CloseReturned => None
    case Returned => None
  }

  /** What that step does to everything shared but the mutex. */
  function Effect(w: World, t: Thread, pc: Pc, pc': Pc): World {
    match pc
    case AcceptCall => if pc'.Accepted? then Opened(w, t, pc'.c) else w
    case AcceptLocked(c) => if w.l.closed then Closed(w, c) else Registered(w, c)
    case CloseLocked => w.(l := w.l.(closed := true))
    case OnceEnter(c, _) => if pc'.InOnce? then w.(once := w.once[c := Running(t)]) else w
    case InOnce(c, RawClose, _) => Closed(w, c)
    case InOnce(c, Delete, _) => w.(l := w.l.(conns := w.l.conns - {c}))
    case InOnce(c, OnceExit, _) => w.(once := w.once[c := Done])
    case _ => w
  }

  /** A new connection from underneath. */
  function Opened(w: World, t: Thread, c: Conn): World {
    w.(log := Log(w.log.closes[c := 0], w.log.acceptor[c := t]))
  }

  function Registered(w: World, c: Conn): World {
    w.(l := w.l.(conns := w.l.conns + {c}), once := w.once[c := Idle])
  }

  /** The connection closed underneath. */
  function Closed(w: World, c: Conn): World {
    if c in w.log.closes then w.(log := w.log.(closes := w.log.closes[c := w.log.closes[c] + 1])) else w
  }

  function Mutex(w: World, t: Thread, pc: Pc, pc': Pc): Option<Thread> {
    if Holds(pc') then Some(t) else if Holds(pc) then None else w.l.mutex
  }

  function WithMutex(w: World, mutex: Option<Thread>): World {
    w.(l := w.l.(mutex := mutex))
  }

  /** One step of a running thread: it moves, takes or gives back the mutex, and has its effect. */
  function Go1(w: World, t: Thread, choice: Option<Conn>): Option<World>
    requires t in w.threads
  {
    var pc := w.threads[t];
    match Target(w, pc, choice)
    case None => None
    case Some(pc') => Some(WithMutex(At(Effect(w, t, pc, pc'), t, pc'), Mutex(w, t, pc, pc')))
  }

  /** Callers close only connections Accept handed out. */
  function Next(w: World, a: Action): Option<World> {
    match a
    case StartAccept(t) => if t in w.threads then None else Some(At(w, t, AcceptCall))
    case StartClose(t) => if t in w.threads then None else Some(At(w, t, CloseCall))
    case StartConnClose(t, c) =>
      if t in w.threads || c !in w.once then None else Some(At(w, t, OnceEnter(c, None)))
    case Go(t, choice) => if t in w.threads then Go1(w, t, choice) else None
  }

  /** The world after some interleaving, if each of its steps was possible. */
  function Play(actions: seq<Action>): Option<World> {
    if actions == [] then Some(START)
    else match Play(actions[..|actions| - 1])
      case None => None
      case Some(w) => Next(w, actions[|actions| - 1])
  }

  // ----- The invariant

  /** The connection a thread took from the listener and has neither registered nor refused yet. */
  function InFlight(pc: Pc): Option<Conn> {
    match pc
    case Accepted(c) => Some(c)
    case AcceptLocked(c) => Some(c)
    case _ => None
  }

  /** The connection whose once a thread is inside. */
  function Working(pc: Pc): Option<Conn> {
    if pc.InOnce? then Some(pc.c) else None
  }

  /** What a listener Close that has set `closed` may still have to close. */
  function Remaining(pc: Pc): Option<set<Conn>> {
    match pc
    case Closing(_, todo) => Some(todo)
    case CloseReturned => Some({})
    case OnceEnter(_, rest) => rest
    case InOnce(_, _, rest) => rest
    case _ => None
  }

  ghost predicate MutexHeld(w: World) {
    && (w.l.mutex.Some? ==> w.l.mutex.value in w.threads)
    && forall t | t in w.threads :: Holds(w.threads[t]) <==> w.l.mutex == Some(t)
  }

  ghost predicate Known(w: World) {
    && w.l.conns <= w.once.Keys <= w.log.closes.Keys == w.log.acceptor.Keys
    && (forall t | t in w.threads && w.threads[t].OnceEnter? :: w.threads[t].c in w.once)
    && (forall t | t in w.threads && Remaining(w.threads[t]).Some? :: Remaining(w.threads[t]).value <= w.once.Keys)
  }

  /** A connection in flight is open, not owned, and in the hands of the thread that accepted it. */
  ghost predicate FlightsApart(w: World) {
    forall t | t in w.threads && InFlight(w.threads[t]).Some? ::
      var c := InFlight(w.threads[t]).value;
      c in w.log.closes && w.log.closes[c] == 0 && c !in w.once && c in w.log.acceptor && w.log.acceptor[c] == t
  }

  ghost predicate OnceRunBy(w: World) {
    && (forall t | t in w.threads && Working(w.threads[t]).Some? ::
          var c := Working(w.threads[t]).value; c in w.once && w.once[c] == Running(t))
    && (forall c | c in w.once && w.once[c].Running? ::
          w.once[c].owner in w.threads && Working(w.threads[w.once[c].owner]) == Some(c))
  }

  /** Before its deletion the connection is still registered. */
  predicate Registers(step: OnceStep) {
    step.RawClose? || step.WantDelete? || step.Delete?
  }

  /** How often an owned connection was closed underneath, and whether it is still registered. */
  ghost predicate Accounted(w: World)
    requires Known(w) && OnceRunBy(w)
  {
    forall c | c in w.once :: match w.once[c]
      case Idle => w.log.closes[c] == 0 && c in w.l.conns
      case Running(t) =>
        && w.log.closes[c] == (if w.threads[t].step.RawClose? then 0 else 1)
        && (c in w.l.conns <==> Registers(w.threads[t].step))
      case Done => w.log.closes[c] == 1 && c !in w.l.conns
  }

  ghost predicate IsInFlight(w: World, c: Conn) {
    c in w.log.acceptor && w.log.acceptor[c] in w.threads && InFlight(w.threads[w.log.acceptor[c]]) == Some(c)
  }

  /** A connection that was never owned is still in flight or was closed exactly once by Accept. */
  ghost predicate UnownedAccounted(w: World) {
    forall c | c in w.log.closes && c !in w.once :: w.log.closes[c] == 1 || (w.log.closes[c] == 0 && IsInFlight(w, c))
  }

  /** Once a listener Close has set `closed`, whatever is registered is on its list. */
  ghost predicate ClosersCover(w: World) {
    forall t | t in w.threads && Remaining(w.threads[t]).Some? :: w.l.closed && w.l.conns <= Remaining(w.threads[t]).value
  }

  ghost predicate Inv(w: World) {
    && MutexHeld(w) && Known(w) && FlightsApart(w) && UnownedAccounted(w) && ClosersCover(w)
    && OnceRunBy(w) && Accounted(w)
  }

  // ----- Every step keeps it

  function PcOf(w: World, t: Thread): Pc {
    if t in w.threads then w.threads[t] else Returned
  }

  /** Moves that do not change what the invariant says about connections. */
  predicate SameStage(pc: Pc, pc': Pc) {
    && InFlight(pc') == InFlight(pc) && Working(pc') == Working(pc)
    && (pc.InOnce? ==> pc'.step.RawClose? == pc.step.RawClose? && Registers(pc'.step) == Registers(pc.step))
  }

  /** A thread moved, the mutex changed hands, and the rest as in `e`. */
  ghost predicate Moved(w: World, e: World, w': World, t: Thread, pc': Pc) {
    && w' == WithMutex(At(e, t, pc'), Mutex(w, t, PcOf(w, t), pc'))
    && e.threads == w.threads && e.l.mutex == w.l.mutex
    && (Holds(pc') && !Holds(PcOf(w, t)) ==> w.l.mutex.None?)
  }

  lemma MoveKeepsMutex(w: World, e: World, w': World, t: Thread, pc': Pc)
    requires MutexHeld(w) && Moved(w, e, w', t, pc')
    ensures MutexHeld(w')
  {}

  /** Lists stay covered when nothing is added once the listener is closed. */
  lemma MoveKeepsLists(w: World, e: World, w': World, t: Thread, pc': Pc)
    requires Known(w) && ClosersCover(w) && Moved(w, e, w', t, pc')
    requires w.once.Keys <= e.once.Keys <= e.log.closes.Keys == e.log.acceptor.Keys
    requires e.l.conns <= e.once.Keys && (w.l.closed ==> e.l.closed && e.l.conns <= w.l.conns)
    requires pc'.OnceEnter? ==> pc'.c in e.once
    requires Remaining(pc').Some? ==> e.l.closed && e.l.conns <= Remaining(pc').value <= e.once.Keys
    ensures Known(w') && ClosersCover(w')
  {}

  /** Connections in flight are left alone by a step that touches only other connections. */
  lemma MoveKeepsFlights(w: World, e: World, w': World, t: Thread, pc': Pc)
    requires FlightsApart(w) && UnownedAccounted(w) && Moved(w, e, w', t, pc')
    requires e.once.Keys == w.once.Keys && e.log.acceptor == w.log.acceptor && e.log.closes.Keys == w.log.closes.Keys
    requires forall c | c in w.log.closes && c !in w.once :: e.log.closes[c] == w.log.closes[c]
    requires InFlight(pc') == InFlight(PcOf(w, t))
    ensures FlightsApart(w') && UnownedAccounted(w')
  {}

  /** Owned connections are left alone by a step within one stage. */
  lemma MoveKeepsOwned(w: World, e: World, w': World, t: Thread, pc': Pc)
    requires Known(w) && OnceRunBy(w) && Accounted(w) && Known(w') && Moved(w, e, w', t, pc')
    requires SameStage(PcOf(w, t), pc') || (Working(PcOf(w, t)).None? && Working(pc').None?)
    requires e.once == w.once && e.l.conns == w.l.conns
    requires forall c | c in w.once :: c in e.log.closes && e.log.closes[c] == w.log.closes[c]
    ensures OnceRunBy(w') && Accounted(w')
  {}

  /** A step that moves a thread and at most locks or unlocks, touching nothing else that is shared. */
  lemma MoveKeepsInv(w: World, t: Thread, pc': Pc) returns (w': World)
    requires Inv(w) && SameStage(PcOf(w, t), pc')
    requires Holds(pc') && !Holds(PcOf(w, t)) ==> w.l.mutex.None?
    requires pc'.OnceEnter? ==> pc'.c in w.once
    requires Remaining(pc').Some? ==> w.l.closed && w.l.conns <= Remaining(pc').value <= w.once.Keys
    ensures w' == WithMutex(At(w, t, pc'), Mutex(w, t, PcOf(w, t), pc')) && Inv(w')
  {
    w' := WithMutex(At(w, t, pc'), Mutex(w, t, PcOf(w, t), pc'));
    MoveKeepsMutex(w, w, w', t, pc');
    MoveKeepsLists(w, w, w', t, pc');
    MoveKeepsFlights(w, w, w', t, pc');
    MoveKeepsOwned(w, w, w', t, pc');
  }

  lemma AcceptKeepsFlights(w: World, w': World, t: Thread, c: Conn)
    requires Known(w) && FlightsApart(w) && UnownedAccounted(w) && c !in w.log.closes
    requires InFlight(PcOf(w, t)).None? && Moved(w, Opened(w, t, c), w', t, Accepted(c))
    ensures FlightsApart(w') && UnownedAccounted(w')
  {}

  lemma AcceptKeepsInv(w: World, t: Thread, c: Conn) returns (w': World)
    requires Inv(w) && t in w.threads && w.threads[t] == AcceptCall && c !in w.log.closes
    ensures w' == WithMutex(At(Opened(w, t, c), t, Accepted(c)), Mutex(w, t, AcceptCall, Accepted(c))) && Inv(w')
  {
    var e := Opened(w, t, c);
    w' := WithMutex(At(e, t, Accepted(c)), Mutex(w, t, AcceptCall, Accepted(c)));
    MoveKeepsMutex(w, e, w', t, Accepted(c));
    MoveKeepsLists(w, e, w', t, Accepted(c));
    AcceptKeepsFlights(w, w', t, c);
    MoveKeepsOwned(w, e, w', t, Accepted(c));
  }

  lemma RefuseKeepsFlights(w: World, w': World, t: Thread, c: Conn)
    requires FlightsApart(w) && UnownedAccounted(w) && t in w.threads && w.threads[t] == AcceptLocked(c)
    requires Moved(w, Closed(w, c), w', t, AcceptUnlock)
    ensures FlightsApart(w') && UnownedAccounted(w')
  {
    assert InFlight(w.threads[t]) == Some(c);
  }

  lemma RefuseKeepsInv(w: World, t: Thread, c: Conn) returns (w': World)
    requires Inv(w) && t in w.threads && w.threads[t] == AcceptLocked(c)
    ensures w' == WithMutex(At(Closed(w, c), t, AcceptUnlock), Mutex(w, t, AcceptLocked(c), AcceptUnlock)) && Inv(w')
  {
    var e := Closed(w, c);
    w' := WithMutex(At(e, t, AcceptUnlock), Mutex(w, t, AcceptLocked(c), AcceptUnlock));
    assert InFlight(w.threads[t]) == Some(c);
    MoveKeepsMutex(w, e, w', t, AcceptUnlock);
    MoveKeepsLists(w, e, w', t, AcceptUnlock);
    RefuseKeepsFlights(w, w', t, c);
    MoveKeepsOwned(w, e, w', t, AcceptUnlock);
  }

  lemma RegisterKeepsConns(w: World, w': World, t: Thread, c: Conn)
    requires Known(w) && FlightsApart(w) && UnownedAccounted(w) && OnceRunBy(w) && Accounted(w) && Known(w')
    requires t in w.threads && w.threads[t] == AcceptLocked(c) && Moved(w, Registered(w, c), w', t, AcceptUnlock)
    ensures FlightsApart(w') && UnownedAccounted(w') && OnceRunBy(w') && Accounted(w')
  {
    assert InFlight(w.threads[t]) == Some(c);
  }

  lemma RegisterKeepsInv(w: World, t: Thread, c: Conn) returns (w': World)
    requires Inv(w) && t in w.threads && w.threads[t] == AcceptLocked(c) && !w.l.closed
    ensures w' == WithMutex(At(Registered(w, c), t, AcceptUnlock), Mutex(w, t, AcceptLocked(c), AcceptUnlock)) && Inv(w')
  {
    var e := Registered(w, c);
    w' := WithMutex(At(e, t, AcceptUnlock), Mutex(w, t, AcceptLocked(c), AcceptUnlock));
    assert InFlight(w.threads[t]) == Some(c);
    MoveKeepsMutex(w, e, w', t, AcceptUnlock);
    MoveKeepsLists(w, e, w', t, AcceptUnlock);
    RegisterKeepsConns(w, w', t, c);
  }

  lemma SnapshotKeepsInv(w: World, t: Thread) returns (w': World)
    requires Inv(w) && t in w.threads && w.threads[t] == CloseLocked
    ensures var pc' := Closing(Unlocking, w.l.conns);
      w' == WithMutex(At(w.(l := w.l.(closed := true)), t, pc'), Mutex(w, t, CloseLocked, pc')) && Inv(w')
  {
    var e, pc' := w.(l := w.l.(closed := true)), Closing(Unlocking, w.l.conns);
    w' := WithMutex(At(e, t, pc'), Mutex(w, t, CloseLocked, pc'));
    MoveKeepsMutex(w, e, w', t, pc');
    MoveKeepsLists(w, e, w', t, pc');
    MoveKeepsFlights(w, e, w', t, pc');
    MoveKeepsOwned(w, e, w', t, pc');
  }

  /** Entering the once of a connection, closing it underneath, deleting it, and leaving the once. */
  lemma EnterKeepsOwned(w: World, w': World, t: Thread, c: Conn, pc': Pc)
    requires Known(w) && OnceRunBy(w) && Accounted(w) && Known(w')
    requires t in w.threads && Moved(w, w.(once := w.once[c := Running(t)]), w', t, pc')
    requires w.threads[t].OnceEnter? && c in w.once && w.once[c] == Idle && pc' == InOnce(c, RawClose, w.threads[t].rest)
    ensures OnceRunBy(w') && Accounted(w')
  {}

  lemma RawCloseKeepsOwned(w: World, w': World, t: Thread, c: Conn, pc': Pc)
    requires Known(w) && OnceRunBy(w) && Accounted(w) && Known(w')
    requires t in w.threads && Moved(w, Closed(w, c), w', t, pc')
    requires pc'.InOnce? && w.threads[t] == InOnce(c, RawClose, pc'.rest) && pc' == InOnce(c, WantDelete, pc'.rest)
    ensures OnceRunBy(w') && Accounted(w')
  {
    assert w.threads[t].InOnce? ==> Working(w.threads[t]) == Some(c);
  }

  lemma DeleteKeepsOwned(w: World, w': World, t: Thread, c: Conn, pc': Pc)
    requires Known(w) && OnceRunBy(w) && Accounted(w) && Known(w')
    requires t in w.threads && Moved(w, w.(l := w.l.(conns := w.l.conns - {c})), w', t, pc')
    requires pc'.InOnce? && w.threads[t] == InOnce(c, Delete, pc'.rest) && pc' == InOnce(c, DeleteUnlock, pc'.rest)
    ensures OnceRunBy(w') && Accounted(w')
  {
    assert w.threads[t].InOnce? ==> Working(w.threads[t]) == Some(c);
  }

  lemma ExitKeepsOwned(w: World, w': World, t: Thread, c: Conn, pc': Pc)
    requires Known(w) && OnceRunBy(w) && Accounted(w) && Known(w')
    requires t in w.threads && Moved(w, w.(once := w.once[c := Done]), w', t, pc')
    requires w.threads[t].InOnce? && w.threads[t].c == c && w.threads[t].step.OnceExit? && Working(pc').None?
    ensures OnceRunBy(w') && Accounted(w')
  {
    assert w.threads[t].InOnce? ==> Working(w.threads[t]) == Some(c);
  }

  lemma OnceStepKeepsInv(w: World, t: Thread, choice: Option<Conn>) returns (w': World)
    requires Inv(w) && t in w.threads && Go1(w, t, choice).Some?
    requires IsOnceStep(w, w.threads[t])
    ensures Go1(w, t, choice) == Some(w') && Inv(w')
  {
    var pc, pc' := w.threads[t], Target(w, w.threads[t], choice).value;
    w' := Go1(w, t, choice).value;
    OnceStepKeepsRest(w, Effect(w, t, pc, pc'), w', t, choice);
    OnceStepKeepsOwned(w, t, choice, w');
  }

  /** A step of a connection Close that changes more than where the thread is. */
  ghost predicate IsOnceStep(w: World, pc: Pc) {
    || (pc.OnceEnter? && pc.c in w.once && w.once[pc.c].Idle?)
    || (pc.InOnce? && !pc.step.WantDelete? && !pc.step.DeleteUnlock?)
  }

  lemma OnceStepKeepsOwned(w: World, t: Thread, choice: Option<Conn>, w': World)
    requires Known(w) && OnceRunBy(w) && Accounted(w) && Known(w')
    requires t in w.threads && Go1(w, t, choice) == Some(w') && IsOnceStep(w, w.threads[t])
    requires Holds(w'.threads[t]) && !Holds(w.threads[t]) ==> w.l.mutex.None?
    ensures OnceRunBy(w') && Accounted(w')
  {
    var pc, pc' := w.threads[t], Target(w, w.threads[t], choice).value;
    if pc.OnceEnter? { EnterKeepsOwned(w, w', t, pc.c, pc'); }
    else if pc.step.RawClose? { RawCloseKeepsOwned(w, w', t, pc.c, pc'); }
    else if pc.step.Delete? { DeleteKeepsOwned(w, w', t, pc.c, pc'); }
    else { ExitKeepsOwned(w, w', t, pc.c, pc'); }
  }

  /** Where a step of a connection Close leads, and what it leaves alone. */
  lemma OnceStepTarget(w: World, t: Thread, choice: Option<Conn>)
    requires Known(w) && t in w.threads && InConnClose(w.threads[t]) && Target(w, w.threads[t], choice).Some?
    ensures var pc, pc' := w.threads[t], Target(w, w.threads[t], choice).value;
      && InFlight(pc) == InFlight(pc') == None && !pc'.OnceEnter?
      && (Remaining(pc') == pc.rest || (pc.rest.Some? && Remaining(pc') == Some(pc.rest.value - {pc.c})))
      && (Remaining(pc') != pc.rest ==> !pc'.InOnce?)
      && (Holds(pc') && !Holds(pc) ==> w.l.mutex.None?)
  {}

  lemma OnceStepEffect(w: World, t: Thread, choice: Option<Conn>)
    requires Known(w) && OnceRunBy(w) && t in w.threads && InConnClose(w.threads[t]) && Target(w, w.threads[t], choice).Some?
    ensures var e := Effect(w, t, w.threads[t], Target(w, w.threads[t], choice).value);
      && e.threads == w.threads && e.l.mutex == w.l.mutex && e.l.closed == w.l.closed && e.l.conns <= w.l.conns
      && e.once.Keys == w.once.Keys && e.log.acceptor == w.log.acceptor && e.log.closes.Keys == w.log.closes.Keys
      && forall c | c in w.log.closes && c !in w.once :: e.log.closes[c] == w.log.closes[c]
  {
    var pc := w.threads[t];
    assert pc.InOnce? ==> Working(pc) == Some(pc.c);
  }

  lemma OnceStepKeepsRest(w: World, e: World, w': World, t: Thread, choice: Option<Conn>)
    requires Inv(w) && t in w.threads && InConnClose(w.threads[t]) && Go1(w, t, choice) == Some(w')
    requires e == Effect(w, t, w.threads[t], Target(w, w.threads[t], choice).value)
    requires w.threads[t].OnceEnter? ==> w.once[w.threads[t].c].Idle?
    ensures MutexHeld(w') && Known(w') && ClosersCover(w') && FlightsApart(w') && UnownedAccounted(w')
  {
    var pc, pc' := w.threads[t], Target(w, w.threads[t], choice).value;
    OnceStepTarget(w, t, choice);
    OnceStepEffect(w, t, choice);
    assert Remaining(pc) == pc.rest;
    MoveKeepsMutex(w, e, w', t, pc');
    MoveKeepsFlights(w, e, w', t, pc');
    if Remaining(pc') != pc.rest { LeavingOnceDeleted(w, t, choice); }
    MoveKeepsLists(w, e, w', t, pc');
  }

  /** A connection that has left its once is no longer registered. */
  lemma LeavingOnceDeleted(w: World, t: Thread, choice: Option<Conn>)
    requires Inv(w) && t in w.threads && InConnClose(w.threads[t]) && Target(w, w.threads[t], choice).Some?
    requires !Target(w, w.threads[t], choice).value.InOnce?
    ensures w.threads[t].c !in w.l.conns
  {
    var pc := w.threads[t];
    if pc.InOnce? { assert Working(pc) == Some(pc.c); }
  }

  lemma StepKeepsInv(w: World, a: Action) returns (w': World)
    requires Inv(w) && Next(w, a).Some?
    ensures Next(w, a) == Some(w') && Inv(w')
  {
    match a
    case StartAccept(t) => w' := MoveKeepsInv(w, t, AcceptCall);
    case StartClose(t) => w' := MoveKeepsInv(w, t, CloseCall);
    case StartConnClose(t, c) => w' := MoveKeepsInv(w, t, OnceEnter(c, None));
    case Go(t, choice) =>
      if InAccept(w.threads[t]) {
        w' := AcceptStepKeepsInv(w, t, choice);
      } else if InConnClose(w.threads[t]) {
        w' := ConnCloseStepKeepsInv(w, t, choice);
      } else {
        w' := CloseStepKeepsInv(w, t, choice);
      }
  }

  predicate InAccept(pc: Pc) {
    pc.AcceptCall? || pc.Accepted? || pc.AcceptLocked? || pc.AcceptUnlock?
  }

  predicate InConnClose(pc: Pc) {
    pc.OnceEnter? || pc.InOnce?
  }

  lemma AcceptStepKeepsInv(w: World, t: Thread, choice: Option<Conn>) returns (w': World)
    requires Inv(w) && t in w.threads && Go1(w, t, choice).Some? && InAccept(w.threads[t])
    ensures Go1(w, t, choice) == Some(w') && Inv(w')
  {
    match w.threads[t]
    case AcceptCall =>
      if choice.Some? { w' := AcceptKeepsInv(w, t, choice.value); } else { w' := MoveKeepsInv(w, t, Returned); }
    case Accepted(c) => w' := MoveKeepsInv(w, t, AcceptLocked(c));
    case AcceptLocked(c) => if w.l.closed { w' := RefuseKeepsInv(w, t, c); } else { w' := RegisterKeepsInv(w, t, c); }
    case AcceptUnlock => w' := MoveKeepsInv(w, t, Returned);
  }

  lemma CloseStepKeepsInv(w: World, t: Thread, choice: Option<Conn>) returns (w': World)
    requires Inv(w) && t in w.threads && Go1(w, t, choice).Some?
    requires !InAccept(w.threads[t]) && !InConnClose(w.threads[t])
    ensures Go1(w, t, choice) == Some(w') && Inv(w')
  {
    if w.threads[t].CloseLocked? {
      w' := SnapshotKeepsInv(w, t);
    } else {
      assert Remaining(w.threads[t]).Some? ==> Remaining(w.threads[t]).value <= w.once.Keys;
      w' := MoveKeepsInv(w, t, Target(w, w.threads[t], choice).value);
    }
  }

  lemma ConnCloseStepKeepsInv(w: World, t: Thread, choice: Option<Conn>) returns (w': World)
    requires Inv(w) && t in w.threads && Go1(w, t, choice).Some? && InConnClose(w.threads[t])
    ensures Go1(w, t, choice) == Some(w') && Inv(w')
  {
    var pc := w.threads[t];
    assert Remaining(pc) == pc.rest;
    if pc.OnceEnter? && w.once[pc.c].Done? {
      assert pc.c !in w.l.conns;
      w' := MoveKeepsInv(w, t, After(pc.c, pc.rest));
    } else if pc.InOnce? && (pc.step.WantDelete? || pc.step.DeleteUnlock?) {
      w' := MoveKeepsInv(w, t, Target(w, pc, choice).value);
    } else {
      w' := OnceStepKeepsInv(w, t, choice);
    }
  }

  lemma {:induction false} AlwaysInv(actions: seq<Action>)
    requires Play(actions).Some?
    ensures Inv(Play(actions).value)
  {
    if actions != [] {
      AlwaysInv(actions[..|actions| - 1]);
      var w := StepKeepsInv(Play(actions[..|actions| - 1]).value, actions[|actions| - 1]);
    }
  }

  // ----- What every interleaving guarantees

  /** Whatever the interleaving, no connection is closed underneath more than once. */
  lemma ClosedAtMostOnce(actions: seq<Action>, c: Conn)
    requires Play(actions).Some? && c in Play(actions).value.log.closes
    ensures Play(actions).value.log.closes[c] <= 1
  {
    AlwaysInv(actions);
    var w := Play(actions).value;
    if c in w.once {
      match w.once[c] case Idle => case Running(_) => case Done =>
    }
  }

  /**
  No leak: once some listener Close has returned and no Accept still carries a connection, every connection
  ever accepted has been closed exactly once and none is registered.
  */
  lemma NothingLeaks(actions: seq<Action>, closer: Thread)
    requires Play(actions).Some?
    requires closer in Play(actions).value.threads && Play(actions).value.threads[closer] == CloseReturned
    requires forall t | t in Play(actions).value.threads :: InFlight(Play(actions).value.threads[t]).None?
    ensures Play(actions).value.l.conns == {}
    ensures forall c | c in Play(actions).value.log.closes :: Play(actions).value.log.closes[c] == 1
  {
    AlwaysInv(actions);
    var w := Play(actions).value;
    assert Remaining(w.threads[closer]) == Some({});
    forall c | c in w.log.closes ensures w.log.closes[c] == 1 {
      if c in w.once {
        match w.once[c] case Idle => case Running(_) => case Done =>
      }
    }
  }

  /** When the Close of a connection returns, that connection has been closed, whoever ran its once. */
  lemma CloseReturnsClosed(actions: seq<Action>, w: World, t: Thread, choice: Option<Conn>, w': World)
    requires Play(actions) == Some(w) && t in w.threads && Next(w, Go(t, choice)) == Some(w')
    requires InConnClose(w.threads[t]) && t in w'.threads && !InConnClose(w'.threads[t])
    ensures var c := w.threads[t].c;
      c in w'.log.closes && w'.log.closes[c] == 1 && c !in w'.l.conns && c in w'.once && w'.once[c] == Done
  {
    AlwaysInv(actions);
    LeavingIsClosed(w, t, choice, w');
  }

  lemma LeavingIsClosed(w: World, t: Thread, choice: Option<Conn>, w': World)
    requires Inv(w) && t in w.threads && Go1(w, t, choice) == Some(w')
    requires InConnClose(w.threads[t]) && t in w'.threads && !InConnClose(w'.threads[t])
    ensures var c := w.threads[t].c;
      c in w'.log.closes && w'.log.closes[c] == 1 && c !in w'.l.conns && c in w'.once && w'.once[c] == Done
  {
    var pc := w.threads[t];
    assert (pc.InOnce? && pc.step.OnceExit?) || (pc.OnceEnter? && w.once[pc.c].Done?);
    if pc.InOnce? { assert Working(pc) == Some(pc.c); }
  }

  /** A connection closed underneath while the mutex is held was never owned, so its Close needs no mutex. */
  lemma NoCloseUnderItsMutex(actions: seq<Action>, w: World, a: Action, w': World, c: Conn)
    requires Play(actions) == Some(w) && Next(w, a) == Some(w')
    requires c in w.log.closes && c in w'.log.closes && w'.log.closes[c] != w.log.closes[c]
    ensures w.l.mutex == Some(a.t) ==> c !in w'.once
  {
    AlwaysInv(actions);
    CloseUnderMutex(w, a, w', c);
  }

  lemma CloseUnderMutex(w: World, a: Action, w': World, c: Conn)
    requires Inv(w) && Next(w, a) == Some(w')
    requires c in w.log.closes && c in w'.log.closes && w'.log.closes[c] != w.log.closes[c]
    ensures w.l.mutex == Some(a.t) ==> c !in w'.once
  {
    assert a.Go?;
    var pc := w.threads[a.t];
    assert pc == AcceptLocked(c) || (pc.InOnce? && pc.step.RawClose? && !Holds(pc));
    assert pc.AcceptLocked? ==> InFlight(pc) == Some(c);
  }

  /** The listener's fields change only in the hands of the thread that holds the mutex. */
  lemma OnlyHolderWrites(actions: seq<Action>, w: World, a: Action, w': World)
    requires Play(actions) == Some(w) && Next(w, a) == Some(w')
    requires w'.l.conns != w.l.conns || w'.l.closed != w.l.closed
    ensures w.l.mutex == Some(a.t)
  {
    AlwaysInv(actions);
    WriterHolds(w, a, w');
  }

  lemma WriterHolds(w: World, a: Action, w': World)
    requires MutexHeld(w) && Next(w, a) == Some(w')
    requires w'.l.conns != w.l.conns || w'.l.closed != w.l.closed
    ensures w.l.mutex == Some(a.t)
  {
    assert a.Go? && Holds(w.threads[a.t]);
  }

  // ----- Every call returns

  predicate Finished(pc: Pc) {
    pc.Returned? || pc.CloseReturned?
  }

  ghost predicate CanGo(w: World, t: Thread) {
    t in w.threads && exists choice :: Go1(w, t, choice).Some?
  }

  lemma HolderCanGo(w: World, t: Thread)
    requires Inv(w) && w.l.mutex == Some(t)
    ensures CanGo(w, t)
  {
    assert Go1(w, t, None).Some?;
  }

  lemma OnceRunnerCanGo(w: World, t: Thread)
    requires Inv(w) && w.l.mutex.None? && t in w.threads && Working(w.threads[t]).Some?
    ensures CanGo(w, t)
  {
    assert Go1(w, t, None).Some?;
  }

  /** With the mutex free, nothing blocks but a once that another thread runs. */
  lemma OthersCanGo(w: World, t: Thread)
    requires Inv(w) && w.l.mutex.None? && t in w.threads && !Finished(w.threads[t])
    requires w.threads[t].Closing? && w.threads[t].at.ClosingConns? ==> w.threads[t].todo == {}
    requires w.threads[t].OnceEnter? ==> w.threads[t].c in w.once && !w.once[w.threads[t].c].Running?
    ensures CanGo(w, t)
  {
    assert Go1(w, t, None).Some?;
  }

  /** No deadlock: as long as some call has not returned, some thread that has not returned can take a step. */
  lemma NeverStuck(actions: seq<Action>, w: World, t: Thread)
    requires Play(actions) == Some(w) && t in w.threads && !Finished(w.threads[t])
    ensures exists u :: CanGo(w, u)
  {
    AlwaysInv(actions);
    SomeCanGo(w, t);
  }

  lemma SomeCanGo(w: World, t: Thread)
    requires Inv(w) && t in w.threads && !Finished(w.threads[t])
    ensures exists u :: CanGo(w, u)
  {
    var pc := w.threads[t];
    if w.l.mutex.Some? {
      HolderCanGo(w, w.l.mutex.value);
    } else if pc.Closing? && pc.at.ClosingConns? && pc.todo != {} {
      var c :| c in pc.todo;
      assert Go1(w, t, Some(c)).Some?;
      assert CanGo(w, t);
    } else if pc.OnceEnter? && w.once[pc.c].Running? {
      OnceRunnerCanGo(w, w.once[pc.c].owner);
    } else {
      OthersCanGo(w, t);
    }
  }

  lemma StepMoves(w: World, t: Thread, choice: Option<Conn>)
    requires t in w.threads && Go1(w, t, choice).Some?
    ensures Target(w, w.threads[t], choice).Some?
    ensures Go1(w, t, choice).value.threads == w.threads[t := Target(w, w.threads[t], choice).value]
  {}

  /** What a thread still has to do at most: whether its list of connections is yet to be taken, then its steps. */
  function Ahead(pc: Pc): (nat, nat) {
    match pc
    case AcceptCall => (0, 5)
    case Accepted(_) => (0, 4)
    case AcceptLocked(_) => (0, 3)
    case AcceptUnlock => (0, 2)
    case CloseCall => (1, 1)
    case CloseLocked => (1, 0)
    case Closing(at, s) => (0, 8 * |s| + if at.Unlocking? then 4 else if at.ClosingListener? then 3 else 2)
    case OnceEnter(c, rest) => (0, Behind(c, rest) + 7)
    case InOnce(c, step, rest) => (0, Behind(c, rest) + StepsLeft(step))
    case CloseReturned => (0, 1)
    case Returned => (0, 1)
  }

  function StepsLeft(step: OnceStep): nat {
    match step
    case RawClose => 6
    case WantDelete => 5
    case Delete => 4
    case DeleteUnlock => 3
    case OnceExit => 2
  }

  /** The steps left once the current connection is off the list. */
  function Behind(c: Conn, rest: Option<set<Conn>>): nat {
    match rest
    case None => 0
    case Some(todo) => 8 * |todo - {c}| + 2
  }

  predicate Less(a: (nat, nat), b: (nat, nat)) {
    a.0 < b.0 || (a.0 == b.0 && a.1 < b.1)
  }

  lemma TakenOffList(todo: set<Conn>, c: Conn)
    requires c in todo
    ensures |todo - {c}| + 1 == |todo|
  {}

  lemma AfterIsProgress(c: Conn, rest: Option<set<Conn>>)
    ensures Ahead(After(c, rest)).0 == 0 && Ahead(After(c, rest)).1 < Behind(c, rest) + 2
  {}

  lemma TargetIsProgress(w: World, pc: Pc, choice: Option<Conn>)
    requires Target(w, pc, choice).Some?
    ensures Less(Ahead(Target(w, pc, choice).value), Ahead(pc))
  {
    if InConnClose(pc) { OnceIsProgress(w, pc, choice); } else { OthersAreProgress(w, pc, choice); }
  }

  /** A step of a connection Close stays inside with less to do, or leaves. */
  lemma OnceTarget(w: World, pc: Pc, choice: Option<Conn>)
    requires Target(w, pc, choice).Some? && InConnClose(pc)
    ensures var pc' := Target(w, pc, choice).value;
      || pc' == After(pc.c, pc.rest)
      || (pc'.InOnce? && pc'.c == pc.c && pc'.rest == pc.rest
          && (pc.InOnce? ==> StepsLeft(pc'.step) < StepsLeft(pc.step)))
  {}

  lemma OnceIsProgress(w: World, pc: Pc, choice: Option<Conn>)
    requires Target(w, pc, choice).Some? && InConnClose(pc)
    ensures Less(Ahead(Target(w, pc, choice).value), Ahead(pc))
  {
    OnceTarget(w, pc, choice);
    OnceStepIsLess(pc, Target(w, pc, choice).value);
  }

  lemma OnceStepIsLess(pc: Pc, pc': Pc)
    requires InConnClose(pc)
    requires pc' == After(pc.c, pc.rest)
          || (pc'.InOnce? && pc'.c == pc.c && pc'.rest == pc.rest
              && (pc.InOnce? ==> StepsLeft(pc'.step) < StepsLeft(pc.step)))
    ensures Less(Ahead(pc'), Ahead(pc))
  {
    AfterIsProgress(pc.c, pc.rest);
  }

  lemma OthersAreProgress(w: World, pc: Pc, choice: Option<Conn>)
    requires Target(w, pc, choice).Some? && !InConnClose(pc)
    ensures Less(Ahead(Target(w, pc, choice).value), Ahead(pc))
  {
    if pc.Closing? && pc.at.ClosingConns? && pc.todo != {} { TakenOffList(pc.todo, choice.value); }
  }

  /** Every step of a thread brings it strictly closer to returning and moves no other thread, so every call returns. */
  lemma {:induction false} StepsRunOut(w: World, t: Thread, choice: Option<Conn>, w': World)
    requires t in w.threads && Next(w, Go(t, choice)) == Some(w')
    ensures t in w'.threads && w'.threads == w.threads[t := w'.threads[t]]
    ensures Less(Ahead(w'.threads[t]), Ahead(w.threads[t]))
  {
    StepMoves(w, t, choice);
    TargetIsProgress(w, w.threads[t], choice);
  }
}
