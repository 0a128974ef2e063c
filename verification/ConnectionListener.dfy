/**
The listener as its code is written (cmd/dispatcher/main.go, connectionListener and ownedConn). Every call is a run of
the protocol of module Ownership by a thread of its own, so what holds over all interleavings holds of the object.
*/
module ConnectionListener {
  import opened Ownership
  import opened Wrappers

  lemma {:induction false} SomeThreadIsNew(s: set<Thread>) returns (t: Thread)
    ensures t !in s && forall x | x in s :: x < t
    decreases |s|
  {
    if s == {} {
      t := 0;
    } else {
      var x :| x in s;
      var above := SomeThreadIsNew(s - {x});
      t := if x < above then above else x + 1;
      forall y | y in s ensures y < t { assert y == x || y in s - {x}; }
    }
  }

  // ----- Calls as runs of the protocol

  /** A history and the world it led to. */
  datatype History = History(run: seq<Action>, now: World)

  ghost predicate Happened(h: History) {
    Play(h.run) == Some(h.now)
  }

  lemma OneStep(h: History, a: Action) returns (h': History)
    requires Happened(h) && Next(h.now, a).Some?
    ensures Happened(h') && h.run <= h'.run && Some(h'.now) == Next(h.now, a)
  {
    h' := History(h.run + [a], Next(h.now, a).value);
    assert (h.run + [a])[..|h.run|] == h.run;
  }

  lemma AcceptRefuses(h: History, t: Thread, c: Conn) returns (h': History)
    requires Happened(h) && h.now.l.mutex.None? && h.now.l.closed && t in h.now.threads && h.now.threads[t] == Accepted(c)
    requires c in h.now.log.closes && h.now.log.closes[c] == 0
    ensures Happened(h') && h.run <= h'.run
    ensures h'.now == h.now.(threads := h.now.threads[t := Returned], log := h.now.log.(closes := h.now.log.closes[c := 1]))
  {
    h' := OneStep(h, Go(t, None));
    h' := OneStep(h', Go(t, None));
    h' := OneStep(h', Go(t, None));
    assert h'.now.threads == h.now.threads[t := Returned];
  }

  lemma AcceptRegisters(h: History, t: Thread, c: Conn) returns (h': History)
    requires Happened(h) && h.now.l.mutex.None? && !h.now.l.closed && t in h.now.threads && h.now.threads[t] == Accepted(c)
    requires c in h.now.log.closes
    ensures Happened(h') && h.run <= h'.run
    ensures h'.now == Registered(h.now, c).(threads := h.now.threads[t := Returned])
  {
    h' := OneStep(h, Go(t, None));
    h' := OneStep(h', Go(t, None));
    h' := OneStep(h', Go(t, None));
    assert h'.now.threads == h.now.threads[t := Returned];
  }

  /** The once of a connection, run by thread t from its entry to its end. */
  lemma OnceRuns(h: History, t: Thread, c: Conn, rest: Option<set<Conn>>) returns (h': History)
    requires Happened(h) && h.now.l.mutex.None? && t in h.now.threads && h.now.threads[t] == OnceEnter(c, rest)
    requires c in h.now.once && h.now.once[c] == Idle && c in h.now.log.closes && h.now.log.closes[c] == 0
    ensures Happened(h') && h.run <= h'.run
    ensures h'.now == World(Listener(h.now.l.closed, h.now.l.conns - {c}, None), h.now.once[c := Done],
                            h.now.threads[t := After(c, rest)], h.now.log.(closes := h.now.log.closes[c := 1]))
  {
    h' := OnceCloses(h, t, c, rest);
    h' := OneStep(h', Go(t, None));
    h' := OneStep(h', Go(t, None));
    h' := OneStep(h', Go(t, None));
    h' := OneStep(h', Go(t, None));
    assert h'.now.threads == h.now.threads[t := After(c, rest)];
    assert h'.now.once == h.now.once[c := Done];
  }

  lemma OnceCloses(h: History, t: Thread, c: Conn, rest: Option<set<Conn>>) returns (h': History)
    requires Happened(h) && h.now.l.mutex.None? && t in h.now.threads && h.now.threads[t] == OnceEnter(c, rest)
    requires c in h.now.once && h.now.once[c] == Idle && c in h.now.log.closes && h.now.log.closes[c] == 0
    ensures Happened(h') && h.run <= h'.run
    ensures h'.now == World(h.now.l, h.now.once[c := Running(t)], h.now.threads[t := InOnce(c, WantDelete, rest)],
                            h.now.log.(closes := h.now.log.closes[c := 1]))
  {
    h' := OneStep(h, Go(t, None));
    h' := OneStep(h', Go(t, None));
    assert h'.now.threads == h.now.threads[t := InOnce(c, WantDelete, rest)];
  }

  /** A listener Close up to its loop over the connections. */
  lemma CloseTakesList(h: History, t: Thread) returns (h': History)
    requires Happened(h) && h.now.l.mutex.None? && t !in h.now.threads
    ensures Happened(h') && h.run <= h'.run
    ensures h'.now == World(Listener(true, h.now.l.conns, None), h.now.once,
                            h.now.threads[t := Closing(ClosingConns, h.now.l.conns)], h.now.log)
  {
    h' := OneStep(h, StartClose(t));
    h' := OneStep(h', Go(t, None));
    h' := OneStep(h', Go(t, None));
    h' := OneStep(h', Go(t, None));
    h' := OneStep(h', Go(t, None));
    assert h'.now.threads == h.now.threads[t := Closing(ClosingConns, h.now.l.conns)];
  }

  /** Thread t moves on and nothing else changes. */
  lemma OnlyMoves(h: History, t: Thread, choice: Option<Conn>, pc': Pc) returns (h': History)
    requires Happened(h) && t in h.now.threads && Target(h.now, h.now.threads[t], choice) == Some(pc')
    requires Effect(h.now, t, h.now.threads[t], pc') == h.now && !Holds(h.now.threads[t]) && !Holds(pc')
    ensures Happened(h') && h.run <= h'.run
    ensures h'.now == h.now.(threads := h.now.threads[t := pc'])
  {
    h' := OneStep(h, Go(t, choice));
  }

  /** The next round of a listener Close's loop, and its end. */
  lemma CloseGoesOn(h: History, t: Thread, todo: set<Conn>, c: Conn) returns (h': History)
    requires Happened(h) && t in h.now.threads && h.now.threads[t] == Closing(ClosingConns, todo) && c in todo
    ensures Happened(h') && h.run <= h'.run
    ensures h'.now == h.now.(threads := h.now.threads[t := OnceEnter(c, Some(todo))])
  {
    h' := OnlyMoves(h, t, Some(c), OnceEnter(c, Some(todo)));
  }

  lemma CloseEnds(h: History, t: Thread) returns (h': History)
    requires Happened(h) && t in h.now.threads && h.now.threads[t] == Closing(ClosingConns, {})
    ensures Happened(h') && h.run <= h'.run
    ensures h'.now == h.now.(threads := h.now.threads[t := CloseReturned])
  {
    h' := OnlyMoves(h, t, None, CloseReturned);
  }

  /** An owned connection whose once has not run is registered and open; one whose once has run was closed. */
  lemma OwnedStatus(h: History, c: Conn)
    requires Happened(h) && c in h.now.once && !h.now.once[c].Running?
    ensures c in h.now.log.closes && (c in h.now.l.conns <==> h.now.once[c].Idle?)
    ensures h.now.log.closes[c] == if h.now.once[c].Idle? then 0 else 1
  {
    AlwaysInv(h.run);
  }

  lemma NoneUnknown(h: History)
    requires Happened(h)
    ensures h.now.l.conns <= h.now.once.Keys <= h.now.log.closes.Keys
  {
    AlwaysInv(h.run);
  }

  // ----- The object

  class Listener {
    var closed: bool
    var conns: set<Conn>
    /** The owned connections Accept handed out, and those whose once has run. */
    var owned: set<Conn>
    var done: set<Conn>
    /** What the calls so far amount to. */
    ghost var h: History

    /** A world in which these are the listener's fields. */
    ghost predicate Agrees(w: World)
      reads this
    {
      && w.l == Ownership.Listener(closed, conns, None) && w.once.Keys == owned && done <= owned
      && forall c | c in owned :: w.once[c] == if c in done then Done else Idle
    }

    /** Between calls: the history is a run of the protocol in which every call has returned. */
    ghost predicate Valid()
      reads this
    {
      Happened(h) && Agrees(h.now) && forall t | t in h.now.threads :: Finished(h.now.threads[t])
    }

    /** During the call of thread t: every other call has returned. */
    ghost predicate Runs(t: Thread, pc: Pc)
      reads this
    {
      && Happened(h) && Agrees(h.now) && t in h.now.threads && h.now.threads[t] == pc
      && forall u | u in h.now.threads && u != t :: Finished(h.now.threads[u])
    }

    constructor ()
      ensures Valid() && !closed && conns == {} && owned == {} && h.now == START
    {
      closed, conns, owned, done := false, {}, {}, {};
      h := History([], START);
    }

    /** Accept, with the connection the underlying listener returns, or None for its error. */
    method Accept(conn: Option<Conn>) returns (r: Option<Conn>)
      requires Valid() && (conn.Some? ==> conn.value !in h.now.log.closes)
      modifies this
      ensures Valid() && old(h.run) <= h.run && closed == old(closed) && done == old(done)
      ensures r == if closed then None else conn
      ensures conns == if r.Some? then old(conns) + {r.value} else old(conns)
      ensures owned == if r.Some? then old(owned) + {r.value} else old(owned)
      ensures h.now.log.closes == if conn.None? then old(h.now.log.closes)
                                  else old(h.now.log.closes)[conn.value := if closed then 1 else 0]
    {
      NoneUnknown(h);
      ghost var t := SomeThreadIsNew(h.now.threads.Keys);
      h := OneStep(h, StartAccept(t));
      h := OneStep(h, Go(t, conn));
      if conn.None? { return None; }
      var c := conn.value;
      if closed {
        h := AcceptRefuses(h, t, c);
        return None;
      }
      conns, owned := conns + {c}, owned + {c};
      h := AcceptRegisters(h, t, c);
      r := conn;
    }

    /** The once.Do of a connection: the first call closes underneath and deletes, every other returns at once. */
    method DoOnce(c: Conn, ghost t: Thread, ghost rest: Option<set<Conn>>)
      requires c in owned && Runs(t, OnceEnter(c, rest))
      modifies this
      ensures Runs(t, After(c, rest)) && old(h.run) <= h.run
      ensures closed == old(closed) && owned == old(owned)
      ensures done == old(done) + {c} && conns == old(conns) - {c}
      ensures h.now.log.closes == old(h.now.log.closes)[c := 1]
    {
      OwnedStatus(h, c);
      if c in done {
        h := OnlyMoves(h, t, None, After(c, rest));
        return;
      }
      h := OnceRuns(h, t, c, rest);
      conns, done := conns - {c}, done + {c};
    }

    /** Close of a connection Accept handed out. */
    method CloseConn(c: Conn)
      requires Valid() && c in owned
      modifies this
      ensures Valid() && old(h.run) <= h.run && closed == old(closed) && owned == old(owned)
      ensures done == old(done) + {c} && conns == old(conns) - {c}
      ensures h.now.log.closes == old(h.now.log.closes)[c := 1]
    {
      ghost var t := SomeThreadIsNew(h.now.threads.Keys);
      h := OneStep(h, StartConnClose(t, c));
      DoOnce(c, t, None);
    }

    /** One round of the loop of Close. */
    method CloseNext(c: Conn, ghost todo: set<Conn>, ghost t: Thread)
      requires Runs(t, Closing(ClosingConns, todo)) && c in todo && c in owned
      modifies this
      ensures Runs(t, Closing(ClosingConns, todo - {c})) && old(h.run) <= h.run
      ensures closed == old(closed) && owned == old(owned) && conns == old(conns) - {c}
      ensures h.now.log.closes == old(h.now.log.closes)[c := 1]
    {
      h := CloseGoesOn(h, t, todo, c);
      DoOnce(c, t, Some(todo));
    }

    /** The loop of Close over the list it took. */
    method CloseEach(list: set<Conn>, ghost t: Thread)
      requires Runs(t, Closing(ClosingConns, list)) && conns <= list <= owned
      modifies this
      ensures Runs(t, CloseReturned) && old(h.run) <= h.run && closed == old(closed) && owned == old(owned)
      ensures h.now.log.closes.Keys == old(h.now.log.closes.Keys)
    {
      NoneUnknown(h);
      var todo := list;
      while todo != {}
        invariant Runs(t, Closing(ClosingConns, todo)) && old(h.run) <= h.run
        invariant closed == old(closed) && owned == old(owned) && conns <= todo <= owned
        invariant h.now.log.closes.Keys == old(h.now.log.closes.Keys) && owned <= h.now.log.closes.Keys
        decreases |todo|
      {
        var c :| c in todo;
        CloseNext(c, todo, t);
        todo := todo - {c};
      }
      h := CloseEnds(h, t);
    }

    /** Close of the listener: afterwards every connection ever accepted has been closed exactly once. */
    method Close()
      requires Valid()
      modifies this
      ensures Valid() && old(h.run) <= h.run && closed && owned == old(owned)
      ensures conns == {} && done == owned
      ensures h.now.log.closes.Keys == old(h.now.log.closes.Keys)
      ensures forall c | c in h.now.log.closes :: h.now.log.closes[c] == 1
    {
      NoneUnknown(h);
      ghost var t := SomeThreadIsNew(h.now.threads.Keys);
      h := CloseTakesList(h, t);
      closed := true;
      CloseEach(conns, t);
      NothingLeaks(h.run, t);
      forall c | c in owned ensures c in done { OwnedStatus(h, c); }
    }
  }
}
