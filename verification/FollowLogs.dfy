/**
Draining the output of a run that may still be growing (cmd/dbl/logs.go, followLogs), over the
pages the SDK lets through (pkg/client/client.go, Logs and validateOutput).
*/
module FollowLogs {
  import opened Wrappers

  datatype Entry = Entry(id: int, output: string)

  /** What a page says about the output as a whole. Other covers unknown and future states. */
  datatype State = Complete | Truncated | Pending | Other

  datatype Output = Output(state: State, finalCursor: Option<int>)

  datatype Page = Page(logs: seq<Entry>, after: int, hasMore: bool, exited: bool, output: Output)

  datatype Error = FetchFailed | EmitFailed | SleepInterrupted

  /** What the surroundings answer in one round of the loop. */
  datatype Round = Round(page: Option<Page>, emitOk: bool, sleepOk: bool)

  /** How a run of the loop ended, or that it goes on after the given rounds. */
  datatype Outcome = Drained | Incomplete(output: Output) | Failed(error: Error) | Running

  // ----- One round

  function Advance(cursor: int, page: Page): int {
    if |page.logs| > 0 then page.after else cursor
  }

  /** What the page makes the loop return, if anything. */
  function Verdict(cursor: int, page: Page): Option<Outcome> {
    match page.output.state
    case Complete => if Final(cursor, page) then Some(Drained) else None
    case Truncated => if Final(cursor, page) then Some(Incomplete(page.output)) else None
    case Pending => None
    case Other => if page.exited && !page.hasMore then Some(Incomplete(page.output)) else None
  }

  predicate Final(cursor: int, page: Page) {
    page.output.finalCursor.Some? && cursor >= page.output.finalCursor.value
  }

  /** The outcome of a run of the loop over these rounds, the entries it emitted and the cursor it ends at. */
  function Follow(rounds: seq<Round>, cursor: int): (Outcome, seq<Entry>, int) {
    if rounds == [] then (Running, [], cursor)
    else if rounds[0].page.None? then (Failed(FetchFailed), [], cursor)
    else if !rounds[0].emitOk then (Failed(EmitFailed), [], cursor)
    else
      var page := rounds[0].page.value;
      var next := Advance(cursor, page);
      if Verdict(next, page).Some? then (Verdict(next, page).value, page.logs, next)
      else if !page.hasMore && !rounds[0].sleepOk then (Failed(SleepInterrupted), page.logs, next)
      else
        var rest := Follow(rounds[1..], next);
        (rest.0, page.logs + rest.1, rest.2)
  }

  lemma Joined(a: seq<Entry>, b: seq<Entry>, c: seq<Entry>)
    ensures a + (b + c) == a + b + c
  {}

  method FollowLogs(rounds: seq<Round>, start: int) returns (outcome: Outcome, emitted: seq<Entry>)
    ensures outcome == Follow(rounds, start).0 && emitted == Follow(rounds, start).1
  {
    var cursor := start;
    emitted := [];
    for i := 0 to |rounds|
      invariant Follow(rounds, start).0 == Follow(rounds[i..], cursor).0
      invariant Follow(rounds, start).1 == emitted + Follow(rounds[i..], cursor).1
    {
      var round := rounds[i];
      ghost var rest := Follow(rounds[i..][1..], if round.page.Some? then Advance(cursor, round.page.value) else cursor);
      assert rounds[i..][1..] == rounds[i + 1..];
      if round.page.None? { return Failed(FetchFailed), emitted; }
      var page := round.page.value;
      if !round.emitOk { return Failed(EmitFailed), emitted; }
      Joined(emitted, page.logs, rest.1);
      emitted := emitted + page.logs;
      if |page.logs| > 0 { cursor := page.after; }
      match page.output.state {
        case Complete =>
          if page.output.finalCursor.Some? && cursor >= page.output.finalCursor.value { return Drained, emitted; }
        case Truncated =>
          if page.output.finalCursor.Some? && cursor >= page.output.finalCursor.value {
            return Incomplete(page.output), emitted;
          }
        case Pending =>
        case Other =>
          if page.exited && !page.hasMore { return Incomplete(page.output), emitted; }
      }
      if page.hasMore { continue; }
      if !round.sleepOk { return Failed(SleepInterrupted), emitted; }
    }
    outcome := Running;
  }

  // ----- Where the loop stops, and with what

  /** The cursor a page leaves: its own unless it is empty. */
  function CursorAfter(page: Page, cursor: int): int {
    if page.logs == [] then cursor else page.after
  }

  predicate FinalReached(page: Page, cursor: int) {
    page.output.finalCursor.Some? && CursorAfter(page, cursor) >= page.output.finalCursor.value
  }

  /** A page that ends the drain: complete, truncated, or all there is of a run that declares neither. */
  predicate EndsComplete(page: Page, cursor: int) {
    page.output.state.Complete? && FinalReached(page, cursor)
  }

  predicate EndsIncomplete(page: Page, cursor: int) {
    || (page.output.state.Truncated? && FinalReached(page, cursor))
    || (page.output.state.Other? && page.exited && !page.hasMore)
  }

  predicate GoesOn(round: Round, cursor: int) {
    && round.page.Some? && round.emitOk && (round.page.value.hasMore || round.sleepOk)
    && !EndsComplete(round.page.value, cursor) && !EndsIncomplete(round.page.value, cursor)
  }

  /** The loop reaches round i, and there holds the given cursor after emitting the given entries. */
  predicate Reaches(rounds: seq<Round>, start: int, i: nat, cursor: int, emitted: seq<Entry>)
    requires i <= |rounds|
  {
    if i == 0 then cursor == start && emitted == []
    else
      && GoesOn(rounds[0], start) && rounds[0].page.value.logs <= emitted
      && Reaches(rounds[1..], CursorAfter(rounds[0].page.value, start), i - 1, cursor, emitted[|rounds[0].page.value.logs|..])
  }

  lemma FollowGoesOn(rounds: seq<Round>, start: int)
    requires rounds != [] && GoesOn(rounds[0], start)
    ensures var page := rounds[0].page.value;
      var rest := Follow(rounds[1..], CursorAfter(page, start));
      Follow(rounds, start) == (rest.0, page.logs + rest.1, rest.2)
  {}

  /** The outcome of a round in which the loop stops. */
  ghost predicate StopsWith(round: Round, cursor: int, outcome: Outcome) {
    var fetched, given := round.page.Some?, round.page.Some? && round.emitOk;
    && (outcome == Failed(FetchFailed) <==> !fetched)
    && (outcome == Failed(EmitFailed) <==> fetched && !round.emitOk)
    && (outcome == Drained <==> given && EndsComplete(round.page.value, cursor))
    && (outcome.Incomplete? <==> given && EndsIncomplete(round.page.value, cursor))
    && (outcome.Incomplete? ==> outcome.output == round.page.value.output)
    && outcome != Running
  }

  function Given(round: Round): seq<Entry> {
    if round.page.Some? && round.emitOk then round.page.value.logs else []
  }

  lemma StopsAtOnce(rounds: seq<Round>, start: int)
    requires rounds != [] && !GoesOn(rounds[0], start)
    ensures StopsWith(rounds[0], start, Follow(rounds, start).0) && Follow(rounds, start).1 == Given(rounds[0])
  {}

  /** What a run that stops in round i, at some cursor, returns and has emitted. */
  lemma {:induction false} StopsAt(rounds: seq<Round>, start: int, i: nat, cursor: int, emitted: seq<Entry>)
    requires i < |rounds| && Reaches(rounds, start, i, cursor, emitted) && !GoesOn(rounds[i], cursor)
    ensures StopsWith(rounds[i], cursor, Follow(rounds, start).0)
    ensures Follow(rounds, start).1 == emitted + Given(rounds[i])
    decreases i
  {
    if i == 0 {
      StopsAtOnce(rounds, start);
    } else {
      var logs := rounds[0].page.value.logs;
      StopsAt(rounds[1..], CursorAfter(rounds[0].page.value, start), i - 1, cursor, emitted[|logs|..]);
      FollowGoesOn(rounds, start);
      assert rounds[1..][i - 1] == rounds[i];
      assert emitted == logs + emitted[|logs|..];
      Joined(logs, emitted[|logs|..], Given(rounds[i]));
    }
  }

  lemma {:induction false} RunsThrough(rounds: seq<Round>, start: int, cursor: int, emitted: seq<Entry>)
    requires Reaches(rounds, start, |rounds|, cursor, emitted)
    ensures Follow(rounds, start) == (Running, emitted, cursor)
    decreases |rounds|
  {
    if rounds != [] {
      var logs := rounds[0].page.value.logs;
      RunsThrough(rounds[1..], CursorAfter(rounds[0].page.value, start), cursor, emitted[|logs|..]);
      assert emitted == logs + emitted[|logs|..];
    }
  }

  /** Every run reaches the end of its rounds or stops in one of them. */
  lemma {:induction false} Stops(rounds: seq<Round>, start: int) returns (i: nat, cursor: int, emitted: seq<Entry>)
    ensures i <= |rounds| && Reaches(rounds, start, i, cursor, emitted)
    ensures i < |rounds| ==> !GoesOn(rounds[i], cursor)
    decreases |rounds|
  {
    i, cursor, emitted := 0, start, [];
    if rounds != [] && GoesOn(rounds[0], start) {
      var page := rounds[0].page.value;
      var more;
      i, cursor, more := Stops(rounds[1..], CursorAfter(page, start));
      i, emitted := i + 1, page.logs + more;
      assert emitted[|page.logs|..] == more;
    }
  }

  ghost predicate StopsOn(rounds: seq<Round>, start: int, i: nat, cursor: int, emitted: seq<Entry>, page: Page) {
    i < |rounds| && Reaches(rounds, start, i, cursor, emitted) && rounds[i].emitOk && rounds[i].page == Some(page)
  }

  /** The drain succeeds if and only if it reaches a page that says complete with its final cursor reached. */
  lemma DrainedExactly(rounds: seq<Round>, start: int)
    ensures Follow(rounds, start).0 == Drained
       <==> exists i, cursor, emitted, page ::
              StopsOn(rounds, start, i, cursor, emitted, page)
              && page.output.state.Complete? && FinalReached(page, cursor)
  {
    var i, cursor, emitted := Stops(rounds, start);
    if i < |rounds| {
      StopsAt(rounds, start, i, cursor, emitted);
      if Follow(rounds, start).0 == Drained {
        assert StopsOn(rounds, start, i, cursor, emitted, rounds[i].page.value);
      }
    } else {
      RunsThrough(rounds, start, cursor, emitted);
    }
    forall j, c, out, page | StopsOn(rounds, start, j, c, out, page) && EndsComplete(page, c)
      ensures Follow(rounds, start).0 == Drained
    {
      StopsAt(rounds, start, j, c, out);
    }
  }

  /** It reports incomplete output if and only if it reaches a page that says truncated there, or the end of a legacy run. */
  lemma IncompleteExactly(rounds: seq<Round>, start: int, output: Output)
    ensures Follow(rounds, start).0 == Incomplete(output)
       <==> exists i, cursor, emitted, page ::
              StopsOn(rounds, start, i, cursor, emitted, page) && page.output == output
              && ((output.state.Truncated? && FinalReached(page, cursor))
                  || (output.state.Other? && page.exited && !page.hasMore))
  {
    var i, cursor, emitted := Stops(rounds, start);
    if i < |rounds| {
      StopsAt(rounds, start, i, cursor, emitted);
      if Follow(rounds, start).0 == Incomplete(output) {
        assert StopsOn(rounds, start, i, cursor, emitted, rounds[i].page.value);
      }
    } else {
      RunsThrough(rounds, start, cursor, emitted);
    }
    forall j, c, out, page | StopsOn(rounds, start, j, c, out, page) && page.output == output && EndsIncomplete(page, c)
      ensures Follow(rounds, start).0 == Incomplete(output)
    {
      StopsAt(rounds, start, j, c, out);
    }
  }

  // ----- What the SDK lets through, whatever the server does

  predicate Increasing(entries: seq<Entry>, above: int) {
    && (forall i | 0 <= i < |entries| :: entries[i].id > above)
    && forall i, j | 0 <= i < j < |entries| :: entries[i].id < entries[j].id
  }

  predicate Accepted(after: int, page: Page) {
    var f := page.output.finalCursor;
    && Increasing(page.logs, after)
    && (if page.logs == [] then !page.hasMore && page.after == after else page.after == page.logs[|page.logs| - 1].id)
    && (page.output.state.Pending? ==> f.None?)
    && (page.output.state.Complete? || page.output.state.Truncated? ==>
          && f.Some? && f.value >= 0
          && (page.logs != [] ==> page.after <= f.value)
          && (page.after < f.value ==> page.hasMore))
  }

  /** Each page answers the request made with the cursor reached by then. */
  ghost predicate Answers(accept: (int, Page) -> bool, rounds: seq<Round>, cursor: int) {
    rounds == [] || rounds[0].page.None?
    || (accept(cursor, rounds[0].page.value) && Answers(accept, rounds[1..], Advance(cursor, rounds[0].page.value)))
  }

  /** Even a misbehaving server can neither repeat nor reorder output: every emitted ID is new. */
  lemma {:induction false} NeverRepeats(rounds: seq<Round>, cursor: int)
    requires Answers(Accepted, rounds, cursor)
    ensures var (outcome, emitted, end) := Follow(rounds, cursor);
      && Increasing(emitted, cursor) && cursor <= end
      && forall i | 0 <= i < |emitted| :: emitted[i].id <= end
    decreases |rounds|
  {
    if rounds != [] && rounds[0].page.Some? && rounds[0].emitOk {
      var page := rounds[0].page.value;
      NeverRepeats(rounds[1..], Advance(cursor, page));
    }
  }

  /** Nor can it make the loop spin: going on without sleeping moves the cursor. */
  lemma GoesOnOnlyForward(cursor: int, page: Page)
    requires Accepted(cursor, page) && page.hasMore
    ensures Advance(cursor, page) > cursor
  {}

  /** On declared output the loop never sleeps, and never emits past the declared end. */
  lemma NeverWaitsOnFinal(cursor: int, page: Page)
    requires Accepted(cursor, page) && (page.output.state.Complete? || page.output.state.Truncated?)
    ensures page.output.finalCursor.Some? && page.output.finalCursor.value >= 0
    ensures page.hasMore || FinalReached(page, cursor)
    ensures forall i | 0 <= i < |page.logs| :: cursor < page.logs[i].id <= page.output.finalCursor.value
  {
    var n := |page.logs|;
    assert n > 0 ==> forall i | 0 <= i < n :: page.logs[i].id <= page.logs[n - 1].id;
  }

  // ----- An honest server over an append-only log

  predicate IsLog(log: seq<Entry>) {
    Increasing(log, 0)
  }

  /** How many entries a cursor has passed. */
  function Passed(log: seq<Entry>, cursor: int): (n: nat)
    ensures n <= |log|
    ensures forall i | n <= i < |log| :: log[i].id > cursor || !IsLog(log)
    ensures n > 0 ==> log[n - 1].id <= cursor
  {
    if log == [] then 0
    else if log[|log| - 1].id <= cursor then |log|
    else Passed(log[..|log| - 1], cursor)
  }

  function LastId(log: seq<Entry>): int {
    if log == [] then 0 else log[|log| - 1].id
  }

  function Min(a: int, b: int): int {
    if a < b then a else b
  }

  /** Where a page that starts at entry n ends. */
  function Reached(n: nat, limit: nat, visible: nat): (m: nat)
    ensures n <= m && (n < visible ==> m <= visible)
  {
    if n < visible then Min(n + limit, visible) else n
  }

  /**
  The page for a request after a cursor when the first `visible` entries of the log are stored: the next
  entries up to the limit, and `hasMore` exactly for a full page. Finality is declared once everything is stored.
  */
  predicate Served(log: seq<Entry>, limit: nat, visible: nat, cursor: int, page: Page)
    requires visible <= |log|
  {
    var n := Passed(log, cursor);
    var m := Reached(n, limit, visible);
    && page.logs == log[n..m]
    && page.after == (if m == n then cursor else log[m - 1].id)
    && page.hasMore == (m - n == limit)
    && (page.output.state.Complete? || page.output.state.Truncated? ==>
          visible == |log| && page.output.finalCursor == Some(LastId(log)))
    && (page.output.state.Pending? ==> page.output.finalCursor.None?)
  }

  ghost predicate Honest(log: seq<Entry>, limit: nat, cursor: int, page: Page) {
    exists visible: nat | visible <= |log| :: Served(log, limit, visible, cursor, page)
  }

  lemma PassedIsExact(log: seq<Entry>, n: nat, cursor: int)
    requires IsLog(log) && n <= |log|
    requires n > 0 ==> log[n - 1].id <= cursor
    requires n < |log| ==> log[n].id > cursor
    ensures Passed(log, cursor) == n
  {}

  /** After an honest page the cursor has passed exactly the entries handed out so far. */
  lemma HonestPageAdvances(log: seq<Entry>, limit: nat, cursor: int, page: Page)
    requires IsLog(log) && limit >= 1 && Honest(log, limit, cursor, page)
    ensures var n, m := Passed(log, cursor), Passed(log, Advance(cursor, page));
      n <= m && page.logs == log[n..m] && (page.hasMore ==> n < m)
  {
    var visible: nat :| visible <= |log| && Served(log, limit, visible, cursor, page);
    var n := Passed(log, cursor);
    var m := Reached(n, limit, visible);
    assert |page.logs| == m - n;
    if n < m { PassedIsExact(log, m, log[m - 1].id); }
  }

  lemma SliceIncreases(log: seq<Entry>, n: nat, m: nat, cursor: int)
    requires IsLog(log) && n <= m <= |log| && (n < |log| ==> log[n].id > cursor)
    ensures Increasing(log[n..m], cursor)
  {
    forall i | 0 <= i < m - n ensures log[n..m][i] == log[n + i] && log[n + i].id > cursor {}
  }

  lemma HonestFinality(log: seq<Entry>, limit: nat, visible: nat, cursor: int, page: Page)
    requires IsLog(log) && limit >= 1 && cursor >= 0 && visible <= |log| && Served(log, limit, visible, cursor, page)
    requires page.output.state.Complete? || page.output.state.Truncated?
    ensures page.output.finalCursor == Some(LastId(log)) && LastId(log) >= 0
    ensures page.logs != [] ==> page.after <= LastId(log)
    ensures page.after < LastId(log) ==> page.hasMore
  {
    var n := Passed(log, cursor);
    var m := Reached(n, limit, visible);
    assert |page.logs| == m - n;
  }

  lemma HonestOrder(log: seq<Entry>, limit: nat, visible: nat, cursor: int, page: Page)
    requires IsLog(log) && limit >= 1 && visible <= |log| && Served(log, limit, visible, cursor, page)
    ensures Increasing(page.logs, cursor)
    ensures if page.logs == [] then !page.hasMore && page.after == cursor else page.after == page.logs[|page.logs| - 1].id
  {
    var n := Passed(log, cursor);
    var m := Reached(n, limit, visible);
    assert |page.logs| == m - n;
    SliceIncreases(log, n, m, cursor);
    if n < m { assert page.logs[m - n - 1] == log[m - 1]; }
  }

  /** The SDK never refuses an honest page for a cursor it accepts. */
  lemma {:induction false} HonestIsAccepted(log: seq<Entry>, limit: nat, cursor: int, page: Page)
    requires IsLog(log) && limit >= 1 && cursor >= 0 && Honest(log, limit, cursor, page)
    ensures Accepted(cursor, page)
  {
    var visible: nat :| visible <= |log| && Served(log, limit, visible, cursor, page);
    HonestOrder(log, limit, visible, cursor, page);
    if page.output.state.Complete? || page.output.state.Truncated? { HonestFinality(log, limit, visible, cursor, page); }
  }

  /** A page that declares the end reached really leaves nothing behind. */
  lemma FinalMeansAllPassed(log: seq<Entry>, limit: nat, cursor: int, page: Page)
    requires IsLog(log) && Honest(log, limit, cursor, page)
    requires page.output.state.Complete? || page.output.state.Truncated?
    requires Final(Advance(cursor, page), page)
    ensures Passed(log, Advance(cursor, page)) == |log|
  {
    var visible: nat :| visible <= |log| && Served(log, limit, visible, cursor, page);
    if log != [] { PassedIsExact(log, |log|, Advance(cursor, page)); }
  }

  /** If the declared end is not reached, the page was full. */
  lemma UnfinishedHasMore(log: seq<Entry>, limit: nat, cursor: int, page: Page)
    requires IsLog(log) && Honest(log, limit, cursor, page)
    requires page.output.state.Complete? || page.output.state.Truncated?
    requires !Final(Advance(cursor, page), page) && cursor >= 0
    ensures page.hasMore
  {
    var visible: nat :| visible <= |log| && Served(log, limit, visible, cursor, page);
    var n := Passed(log, cursor);
    assert |page.logs| == Reached(n, limit, visible) - n;
  }

  ghost predicate AllHonest(log: seq<Entry>, limit: nat, rounds: seq<Round>, cursor: int) {
    Answers((c, page) => Honest(log, limit, c, page), rounds, cursor)
  }

  lemma SlicesJoin(log: seq<Entry>, a: nat, b: nat, c: nat)
    requires a <= b <= c <= |log|
    ensures log[a..b] + log[b..c] == log[a..c]
  {}

  /** At any moment the emitted entries are the log's own from the start cursor on, without gap or repeat. */
  lemma {:induction false} EmitsGaplessly(log: seq<Entry>, limit: nat, rounds: seq<Round>, cursor: int)
    requires IsLog(log) && limit >= 1 && AllHonest(log, limit, rounds, cursor)
    ensures var (_, emitted, end) := Follow(rounds, cursor);
      Passed(log, cursor) <= Passed(log, end) && emitted == log[Passed(log, cursor)..Passed(log, end)]
    decreases |rounds|
  {
    if rounds != [] && rounds[0].page.Some? && rounds[0].emitOk {
      var page := rounds[0].page.value;
      HonestPageAdvances(log, limit, cursor, page);
      EmitsGaplessly(log, limit, rounds[1..], Advance(cursor, page));
      SlicesJoin(log, Passed(log, cursor), Passed(log, Advance(cursor, page)), Passed(log, Follow(rounds[1..], Advance(cursor, page)).2));
    }
  }

  /** What a final page declared: the last ID of the log, as complete or as truncated output. */
  ghost predicate DeclaresEnd(outcome: Outcome, log: seq<Entry>) {
    outcome.Drained? || (outcome.Incomplete? && outcome.output == Output(Truncated, Some(LastId(log))))
  }

  lemma {:induction false} EndIsPassed(log: seq<Entry>, limit: nat, rounds: seq<Round>, cursor: int)
    requires IsLog(log) && limit >= 1 && AllHonest(log, limit, rounds, cursor)
    ensures var (outcome, _, end) := Follow(rounds, cursor);
      && (DeclaresEnd(outcome, log) ==> Passed(log, end) == |log|)
      && (outcome.Incomplete? ==> outcome.output.state.Other? || DeclaresEnd(outcome, log))
    decreases |rounds|
  {
    if rounds != [] && rounds[0].page.Some? && rounds[0].emitOk {
      var page := rounds[0].page.value;
      var next := Advance(cursor, page);
      if Verdict(next, page).Some? && !page.output.state.Other? {
        FinalMeansAllPassed(log, limit, cursor, page);
      }
      EndIsPassed(log, limit, rounds[1..], next);
    }
  }

  /** Which entries a suffix of the log holds. */
  lemma SuffixMember(log: seq<Entry>, n: nat, i: nat)
    requires IsLog(log) && n <= |log| && i < |log|
    ensures log[i] in log[n..] <==> i >= n
  {
    if i >= n {
      assert log[n..][i - n] == log[i];
    } else {
      forall x | x in log[n..] ensures x.id > log[i].id {
        var j :| n <= j < |log| && log[j] == x;
      }
    }
  }

  lemma PassedSplits(log: seq<Entry>, cursor: int, i: nat)
    requires IsLog(log) && i < |log|
    ensures i >= Passed(log, cursor) <==> cursor < log[i].id
  {
    var n := Passed(log, cursor);
    if i < n { assert i < n - 1 ==> log[i].id < log[n - 1].id; }
  }

  /**
  A successful return means the emitted entries are exactly all entries after the start cursor, which end at
  the declared final cursor; truncated output is reported only after the same entries.
  */
  lemma {:induction false} DrainsExactly(log: seq<Entry>, limit: nat, rounds: seq<Round>, start: int)
    requires IsLog(log) && limit >= 1 && AllHonest(log, limit, rounds, start)
    requires DeclaresEnd(Follow(rounds, start).0, log)
    ensures Follow(rounds, start).1 == log[Passed(log, start)..]
    ensures forall i | 0 <= i < |log| :: log[i] in Follow(rounds, start).1 <==> start < log[i].id <= LastId(log)
  {
    EmitsGaplessly(log, limit, rounds, start);
    EndIsPassed(log, limit, rounds, start);
    forall i | 0 <= i < |log|
      ensures log[i] in log[Passed(log, start)..] <==> start < log[i].id <= LastId(log)
    {
      SuffixMember(log, Passed(log, start), i);
      PassedSplits(log, start, i);
      assert i < |log| - 1 ==> log[i].id < log[|log| - 1].id;
    }
  }

  /** Once the end is declared the drain finishes: each further round hands out at least one entry or returns. */
  lemma {:induction false} DrainFinishes(log: seq<Entry>, limit: nat, rounds: seq<Round>, cursor: int)
    requires IsLog(log) && limit >= 1 && cursor >= 0 && AllHonest(log, limit, rounds, cursor)
    requires forall r | r in rounds :: r.page.Some? && r.emitOk && r.sleepOk
    requires forall r | r in rounds :: r.page.value.output.state.Complete? || r.page.value.output.state.Truncated?
    requires |rounds| > |log| - Passed(log, cursor)
    ensures DeclaresEnd(Follow(rounds, cursor).0, log)
    decreases |rounds|
  {
    var page := rounds[0].page.value;
    var next := Advance(cursor, page);
    assert rounds[0] in rounds;
    HonestPageAdvances(log, limit, cursor, page);
    if Verdict(next, page).None? {
      UnfinishedHasMore(log, limit, cursor, page);
      DrainFinishes(log, limit, rounds[1..], next);
    }
  }
}
