/** A sequence of join requests handled one after another by the gate, from a
    given map. Each event carries the request together with what the clock and
    the Telegram client answered while it was handled. */
module JoinRun {
  import opened JoinTypes
  import opened JoinGate

  datatype Event = Event(req: JoinRequest, checkTime: Millis, recordTime: Millis,
                         approveOk: bool, sendResult: SendResult)

  /** One outcome per event, every command issued in order, and the final map. */
  datatype RunResult = RunResult(outcomes: seq<Outcome>, log: seq<Command>, store: Store)

  function StepOf(store: Store, e: Event): StepResult {
    Step(store, e.req, e.checkTime, e.recordTime, e.approveOk, e.sendResult)
  }

  /** Handles `events` in order, starting from `store`. */
  function Run(store: Store, events: seq<Event>): (r: RunResult)
    ensures |r.outcomes| == |events|
    ensures store.Keys <= r.store.Keys
    decreases |events|
  {
    if events == [] then RunResult([], [], store)
    else
      var before := Run(store, events[..|events| - 1]);
      var s := StepOf(before.store, events[|events| - 1]);
      RunResult(before.outcomes + [s.outcome], before.log + s.commands, s.store)
  }

  /** Handling a prefix of the events yields a prefix of the outcomes and a
      prefix of the command log. */
  lemma {:induction false} RunPrefix(store: Store, events: seq<Event>, k: nat)
    requires k <= |events|
    ensures Run(store, events[..k]).outcomes == Run(store, events).outcomes[..k]
    ensures Run(store, events[..k]).log <= Run(store, events).log
    ensures Run(store, events[..k]).store.Keys <= Run(store, events).store.Keys
    decreases |events|
  {
    if k < |events| {
      var n := |events|;
      RunPrefix(store, events[..n - 1], k);
      assert events[..n - 1][..k] == events[..k];
    } else {
      assert events[..k] == events;
    }
  }

  /** The outcome of event `j` is what the gate decides on the map left by the
      events before it. */
  lemma {:induction false} RunStepAt(store: Store, events: seq<Event>, j: nat)
    requires j < |events|
    ensures Run(store, events).outcomes[j] == StepOf(Run(store, events[..j]).store, events[j]).outcome
  {
    var n := |events|;
    if j < n - 1 {
      RunStepAt(store, events[..n - 1], j);
      assert events[..n - 1][..j] == events[..j];
    } else {
      assert events[..n - 1] == events[..j];
    }
  }

  /** Event `i` is an accepted request of user `u`. */
  ghost predicate AcceptedAt(events: seq<Event>, outcomes: seq<Outcome>, u: UserId, i: int) {
    0 <= i < |events| && i < |outcomes| && events[i].req.user == u && outcomes[i].Accepted()
  }

  /** No request of user `u` among events `lo` to `hi - 1` was accepted. */
  ghost predicate NoAcceptanceIn(events: seq<Event>, outcomes: seq<Outcome>, u: UserId, lo: int, hi: int) {
    forall m :: lo <= m < hi ==> !AcceptedAt(events, outcomes, u, m)
  }

  /** Whether an event before the last one was an accepted request of `u`
      reads the same in a run and in the run without its last event. */
  lemma AcceptedInPrefix(store: Store, events: seq<Event>, u: UserId, m: int)
    requires events != [] && 0 <= m < |events| - 1
    ensures AcceptedAt(events, Run(store, events).outcomes, u, m)
        <==> AcceptedAt(events[..|events| - 1], Run(store, events[..|events| - 1]).outcomes, u, m)
  {
    var n := |events|;
    assert events[..n - 1][m] == events[m];
    assert Run(store, events).outcomes[m] == Run(store, events[..n - 1]).outcomes[m];
  }

  /** A user's last accepted request in a run decides the user's final entry. */
  lemma {:induction false} StoreAtLastAcceptance(store: Store, events: seq<Event>, u: UserId, i: int)
    requires AcceptedAt(events, Run(store, events).outcomes, u, i)
    requires NoAcceptanceIn(events, Run(store, events).outcomes, u, i + 1, |events|)
    ensures u in Run(store, events).store && Run(store, events).store[u] == events[i].recordTime
    decreases |events|
  {
    var n := |events|;
    var prefix := events[..n - 1];
    var before := Run(store, prefix);
    var s := StepOf(before.store, events[n - 1]);
    if i < n - 1 {
      AcceptedInPrefix(store, events, u, i);
      forall m | i + 1 <= m < n - 1
        ensures !AcceptedAt(prefix, before.outcomes, u, m)
      {
        AcceptedInPrefix(store, events, u, m);
      }
      StoreAtLastAcceptance(store, prefix, u, i);
      assert !AcceptedAt(events, Run(store, events).outcomes, u, n - 1);
      assert events[n - 1].req.user != u || !s.outcome.Accepted();
    }
  }

  /** A user never accepted during a run keeps the entry, or the absence of
      one, that the starting map gave. */
  lemma {:induction false} StoreWithoutAcceptance(store: Store, events: seq<Event>, u: UserId)
    requires NoAcceptanceIn(events, Run(store, events).outcomes, u, 0, |events|)
    ensures u in Run(store, events).store <==> u in store
    ensures u in store ==> Run(store, events).store[u] == store[u]
    decreases |events|
  {
    if events != [] {
      var n := |events|;
      var prefix := events[..n - 1];
      var before := Run(store, prefix);
      var s := StepOf(before.store, events[n - 1]);
      forall m | 0 <= m < n - 1
        ensures !AcceptedAt(prefix, before.outcomes, u, m)
      {
        AcceptedInPrefix(store, events, u, m);
      }
      StoreWithoutAcceptance(store, prefix, u);
      assert !AcceptedAt(events, Run(store, events).outcomes, u, n - 1);
      assert events[n - 1].req.user != u || !s.outcome.Accepted();
    }
  }

  /** After a run, each user maps to the time recorded at that user's last
      accepted request; a user never accepted during the run keeps the entry,
      or the absence of one, that the starting map gave.  */
  lemma StoreRecordsLastAcceptance(store: Store, events: seq<Event>, u: UserId)
    ensures var r := Run(store, events);
      && (forall i :: AcceptedAt(events, r.outcomes, u, i) && NoAcceptanceIn(events, r.outcomes, u, i + 1, |events|) ==>
            u in r.store && r.store[u] == events[i].recordTime)
      && (NoAcceptanceIn(events, r.outcomes, u, 0, |events|) ==>
            (u in r.store <==> u in store) && (u in store ==> r.store[u] == store[u]))
  {
    var r := Run(store, events);
    forall i | AcceptedAt(events, r.outcomes, u, i) && NoAcceptanceIn(events, r.outcomes, u, i + 1, |events|)
      ensures u in r.store && r.store[u] == events[i].recordTime
    {
      StoreAtLastAcceptance(store, events, u, i);
    }
    if NoAcceptanceIn(events, r.outcomes, u, 0, |events|) {
      StoreWithoutAcceptance(store, events, u);
    }
  }

  /** Among the accepted requests of `u` from index `i` on, there is a last one. */
  lemma {:induction false} LastAcceptanceFrom(events: seq<Event>, outcomes: seq<Outcome>, u: UserId, i: int, hi: int)
    returns (k: int)
    requires 0 <= hi <= |events|
    requires AcceptedAt(events, outcomes, u, i) && i < hi
    ensures i <= k < hi && AcceptedAt(events, outcomes, u, k)
    ensures NoAcceptanceIn(events, outcomes, u, k + 1, hi)
    decreases hi
  {
    if AcceptedAt(events, outcomes, u, hi - 1) {
      k := hi - 1;
    } else {
      k := LastAcceptanceFrom(events, outcomes, u, i, hi - 1);
    }
  }

  /** The clock never runs backwards: within each event the record time is
      no earlier than the check time, and every later event reads a time no
      earlier than every earlier event recorded. */
  ghost predicate MonotoneClock(events: seq<Event>) {
    && (forall i :: 0 <= i < |events| ==> events[i].checkTime <= events[i].recordTime)
    && (forall i, j :: 0 <= i < j < |events| ==> events[i].recordTime <= events[j].checkTime)
  }

  /** The map before event `j` holds, for `u`, the time recorded at the last
      accepted request of `u` before `j`. */
  lemma StoreBefore(store: Store, events: seq<Event>, j: nat, k: int, u: UserId)
    requires j <= |events|
    requires AcceptedAt(events, Run(store, events).outcomes, u, k) && k < j
    requires NoAcceptanceIn(events, Run(store, events).outcomes, u, k + 1, j)
    ensures u in Run(store, events[..j]).store
    ensures Run(store, events[..j]).store[u] == events[k].recordTime
  {
    var r := Run(store, events);
    var prefix := events[..j];
    var p := Run(store, prefix);
    RunPrefix(store, events, j);
    StoreRecordsLastAcceptance(store, prefix, u);
    assert prefix[k] == events[k];
    assert AcceptedAt(prefix, p.outcomes, u, k);
    forall m | k + 1 <= m < j
      ensures !AcceptedAt(prefix, p.outcomes, u, m)
    {
      assert prefix[m] == events[m];
      assert !AcceptedAt(events, r.outcomes, u, m);
    }
  }

  /** The debounce guarantee of a sequential run: under a clock that does not
      run backwards, two accepted requests of the same user are at least one
      window apart, measured from the earlier one's recorded time to the later
      one's check. */
  lemma AcceptancesSeparated(store: Store, events: seq<Event>, i: nat, j: nat)
    requires MonotoneClock(events)
    requires i < j < |events|
    requires events[i].req.user == events[j].req.user
    requires Run(store, events).outcomes[i].Accepted()
    requires Run(store, events).outcomes[j].Accepted()
    ensures events[j].checkTime - events[i].recordTime >= DebounceWindow
  {
    var u := events[j].req.user;
    var outcomes := Run(store, events).outcomes;
    var k := LastAcceptanceFrom(events, outcomes, u, i, j);
    StoreBefore(store, events, j, k, u);
    RunStepAt(store, events, j);
    assert events[i].recordTime <= events[k].recordTime by {
      if i < k {
        assert events[i].recordTime <= events[k].checkTime;
      }
    }
  }

  /** The debounce guarantee in its suppression form, for a sequential run
      under a clock that does not run backwards: once a request of a user is
      accepted, every later request of that user that checks less than one
      window after the recorded time is ignored. */
  lemma WithinWindowSuppressed(store: Store, events: seq<Event>, i: nat, j: nat)
    requires MonotoneClock(events)
    requires i < j < |events|
    requires events[i].req.user == events[j].req.user
    requires Run(store, events).outcomes[i].Accepted()
    requires events[j].checkTime - events[i].recordTime < DebounceWindow
    ensures Run(store, events).outcomes[j] == Suppressed
  {
    var u := events[j].req.user;
    var outcomes := Run(store, events).outcomes;
    var k := LastAcceptanceFrom(events, outcomes, u, i, j);
    SuppressedIffRecentAcceptance(store, events, j);
    assert events[i].recordTime <= events[k].recordTime by {
      if i < k {
        assert events[i].recordTime <= events[k].checkTime;
      }
    }
  }

  /** Whether event `j` is ignored is decided by the last accepted request of
      the same user before it: it is ignored exactly when that request's
      recorded time is less than one window before `j`'s check, or, if the
      user had no accepted request yet, when the starting map says so. */
  lemma SuppressedIffRecentAcceptance(store: Store, events: seq<Event>, j: nat)
    requires j < |events|
    ensures var outcomes := Run(store, events).outcomes;
      var u := events[j].req.user;
      && (forall k :: AcceptedAt(events, outcomes, u, k) && k < j && NoAcceptanceIn(events, outcomes, u, k + 1, j) ==>
            (outcomes[j] == Suppressed <==> events[j].checkTime - events[k].recordTime < DebounceWindow))
      && (NoAcceptanceIn(events, outcomes, u, 0, j) ==>
            (outcomes[j] == Suppressed <==> Recent(store, u, events[j].checkTime)))
  {
    var r := Run(store, events);
    var u := events[j].req.user;
    var prefix := events[..j];
    var p := Run(store, prefix);
    RunStepAt(store, events, j);
    forall k | AcceptedAt(events, r.outcomes, u, k) && k < j && NoAcceptanceIn(events, r.outcomes, u, k + 1, j)
      ensures r.outcomes[j] == Suppressed <==> events[j].checkTime - events[k].recordTime < DebounceWindow
    {
      StoreBefore(store, events, j, k, u);
    }
    if NoAcceptanceIn(events, r.outcomes, u, 0, j) {
      RunPrefix(store, events, j);
      StoreRecordsLastAcceptance(store, prefix, u);
      forall m | 0 <= m < j
        ensures !AcceptedAt(prefix, p.outcomes, u, m)
      {
        assert prefix[m] == events[m];
        assert !AcceptedAt(events, r.outcomes, u, m);
      }
    }
  }

  /** Counts the elements of `s` that satisfy `p`. */
  function CountIf<T>(s: seq<T>, p: T -> bool): nat {
    if s == [] then 0 else (if p(s[0]) then 1 else 0) + CountIf(s[1..], p)
  }

  lemma {:induction false} CountIfAppend<T>(a: seq<T>, b: seq<T>, p: T -> bool)
    ensures CountIf(a + b, p) == CountIf(a, p) + CountIf(b, p)
    decreases |a|
  {
    if a == [] {
      assert a + b == b;
    } else {
      CountIfAppend(a[1..], b, p);
      assert (a + b)[1..] == a[1..] + b;
    }
  }

  predicate IsApprove(c: Command) { c.Approve? }
  predicate IsSend(c: Command) { c.Send? }
  predicate IsDelete(c: Command) { c.ScheduleDelete? }
  predicate NotSuppressed(o: Outcome) { o != Suppressed }
  predicate IsAccepted(o: Outcome) { o.Accepted() }
  predicate IsWelcomed(o: Outcome) { o == Welcomed }

  /** The command counts of a single step. */
  lemma CountOfStep(outcome: Outcome, commands: seq<Command>, req: JoinRequest, sendResult: SendResult)
    requires CommandsMatch(outcome, commands, req, sendResult)
    ensures CountIf(commands, IsApprove) == CountIf([outcome], NotSuppressed)
    ensures CountIf(commands, IsSend) == CountIf([outcome], IsAccepted)
    ensures CountIf(commands, IsDelete) == CountIf([outcome], IsWelcomed)
    ensures forall c :: c in commands && c.ScheduleDelete? ==> c.delay == DeleteDelay
  {
    assert [outcome][1..] == [];
    match outcome
    case Suppressed =>
    case ApproveFailed =>
      assert commands[1..] == [];
    case GreetFailed =>
      assert commands[1..][1..] == [];
    case Welcomed =>
      var tail := commands[1..][1..];
      assert tail[1..] == [];
      assert CountIf(tail, IsApprove) == 0;
      assert CountIf(tail, IsSend) == 0;
      assert CountIf(tail, IsDelete) == 1;
  }

  /** Over a whole run the client sees one approval call per request that was
      not ignored, one greeting per accepted request, and one scheduled
      deletion per greeting that was sent; every deletion waits the same
      fixed delay. */
  lemma {:induction false} LogMatchesOutcomes(store: Store, events: seq<Event>)
    ensures var r := Run(store, events);
      && CountIf(r.log, IsApprove) == CountIf(r.outcomes, NotSuppressed)
      && CountIf(r.log, IsSend) == CountIf(r.outcomes, IsAccepted)
      && CountIf(r.log, IsDelete) == CountIf(r.outcomes, IsWelcomed)
      && (forall c :: c in r.log && c.ScheduleDelete? ==> c.delay == DeleteDelay)
    decreases |events|
  {
    if events != [] {
      var n := |events|;
      var before := Run(store, events[..n - 1]);
      var s := StepOf(before.store, events[n - 1]);
      var r := Run(store, events);
      LogMatchesOutcomes(store, events[..n - 1]);
      assert r.outcomes == before.outcomes + [s.outcome];
      assert r.log == before.log + s.commands;
      CountIfAppend(before.log, s.commands, IsApprove);
      CountIfAppend(before.log, s.commands, IsSend);
      CountIfAppend(before.log, s.commands, IsDelete);
      CountIfAppend(before.outcomes, [s.outcome], NotSuppressed);
      CountIfAppend(before.outcomes, [s.outcome], IsAccepted);
      CountIfAppend(before.outcomes, [s.outcome], IsWelcomed);
      CountOfStep(s.outcome, s.commands, events[n - 1].req, events[n - 1].sendResult);
    }
  }

  /** The set of users in the map never shrinks along a run. */
  lemma KeysNeverShrink(store: Store, events: seq<Event>, k: nat, n: nat)
    requires k <= n <= |events|
    ensures Run(store, events[..k]).store.Keys <= Run(store, events[..n]).store.Keys
  {
    RunPrefix(store, events[..n], k);
    assert events[..n][..k] == events[..k];
  }
}
