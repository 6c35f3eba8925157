/** Two requests of one user whose handlers overlap on the event loop: both
    read the map before either approval call returns. The check and the
    recording are separated by the `await` on the approval, so nothing stops
    both handlers from passing the check. */
module Interleaving {
  import opened JoinTypes
  import opened JoinGate
  import opened JoinRun

  /** Outcomes of two overlapped handlers `a` and `b`: both check against
      `store`, then `a` resumes, then `b` resumes on the map `a` left. */
  function Overlapped(store: Store, a: Event, b: Event): (r: RunResult)
    ensures |r.outcomes| == 2
    ensures r.outcomes[0] == Suppressed <==> Recent(store, a.req.user, a.checkTime)
    ensures r.outcomes[1] == Suppressed <==> Recent(store, b.req.user, b.checkTime)
    ensures r.outcomes[1].Accepted() <==> !Recent(store, b.req.user, b.checkTime) && b.approveOk
    ensures r.outcomes[1].Accepted() ==> b.req.user in r.store && r.store[b.req.user] == b.recordTime
    ensures store.Keys <= r.store.Keys
  {
    var admitA := !Recent(store, a.req.user, a.checkTime);
    var admitB := !Recent(store, b.req.user, b.checkTime);
    var ra := if admitA then Resume(store, a.req, a.recordTime, a.approveOk, a.sendResult)
              else StepResult(Suppressed, [], store);
    var rb := if admitB then Resume(ra.store, b.req, b.recordTime, b.approveOk, b.sendResult)
              else StepResult(Suppressed, [], ra.store);
    RunResult([ra.outcome, rb.outcome], ra.commands + rb.commands, rb.store)
  }

  /** Two requests of one user, both approved by the client. Handled one
      after the other with a clock that does not run backwards, a second
      request `later` that checks 1 ms after the first one recorded is
      ignored. Overlapped, a second request `early` that checks 1 ms after
      the first one checked, before the first one records, is accepted too:
      the user is approved and greeted twice inside one window. */
  lemma OverlapAdmitsDuplicate()
    ensures var req := JoinRequest(100, 7, "Ada");
      var a := Event(req, 0, 2, true, Sent(SentMessage(100, 1)));
      var later := Event(req, 3, 4, true, Sent(SentMessage(100, 2)));
      var early := Event(req, 1, 3, true, Sent(SentMessage(100, 2)));
      && MonotoneClock([a, later])
      && Run(map[], [a, later]).outcomes == [Welcomed, Suppressed]
      && Overlapped(map[], a, early).outcomes == [Welcomed, Welcomed]
      && early.recordTime - a.recordTime < DebounceWindow
  {
    var req := JoinRequest(100, 7, "Ada");
    var a := Event(req, 0, 2, true, Sent(SentMessage(100, 1)));
    var later := Event(req, 3, 4, true, Sent(SentMessage(100, 2)));
    assert [a, later][..1] == [a];
    assert [a][..0] == [];
    assert Run(map[], []) == RunResult([], [], map[]);
    var s := StepOf(map[], a);
    assert s.outcome == Welcomed && s.store == map[7 := 2];
    var first := Run(map[], [a]);
    assert first.outcomes == [Welcomed] && first.store == map[7 := 2];
    assert Recent(first.store, 7, 3);
  }
}
