/** Concrete runs of the gate from an empty map, as the bot sees them right
    after start-up. Times are in milliseconds, and each request records the
    same time it checked. */
module Scenarios {
  import opened JoinTypes
  import opened JoinGate
  import opened JoinRun

  /** Handling one more event extends the run by that event's step. */
  lemma RunSnoc(store: Store, events: seq<Event>, e: Event)
    ensures var before := Run(store, events);
      var s := StepOf(before.store, e);
      Run(store, events + [e]) == RunResult(before.outcomes + [s.outcome], before.log + s.commands, s.store)
  {
  }

  function At(user: UserId, t: Millis, approveOk: bool): Event {
    Event(JoinRequest(-1001, user, "Sam"), t, t, approveOk, Sent(SentMessage(-1001, t)))
  }

  /** A user accepted at 0 is ignored at 10 s and accepted again at 35 s, and
      the map then holds the later time. */
  lemma RepeatAfterWindow()
    ensures var r := Run(map[], [At(1, 0, true), At(1, 10000, true), At(1, 35000, true)]);
      r.outcomes == [Welcomed, Suppressed, Welcomed] && r.store == map[1 := 35000]
  {
    var e0, e1, e2 := At(1, 0, true), At(1, 10000, true), At(1, 35000, true);
    RunSnoc(map[], [], e0);
    assert [] + [e0] == [e0];
    RunSnoc(map[], [e0], e1);
    RunSnoc(map[], [e0, e1], e2);
  }

  /** A failed approval leaves no entry, so a retry one millisecond later is
      handled afresh and accepted. */
  lemma RetryAfterFailure()
    ensures var r := Run(map[], [At(2, 0, false), At(2, 1, true)]);
      r.outcomes == [ApproveFailed, Welcomed] && r.store == map[2 := 1]
  {
  }

  /** Requests of two different users at the same instant are both accepted. */
  lemma DistinctUsersIndependent()
    ensures var r := Run(map[], [At(3, 500, true), At(4, 500, true)]);
      r.outcomes == [Welcomed, Welcomed] && r.store == map[3 := 500, 4 := 500]
  {
  }
}
