/** The debounce gate of `approveJoinRequest`: one join request handled
    against the map of last approval times. The Telegram client is replaced by
    its answers (`approveOk`, `sendResult`) and the two `Date.now()` reads by
    `checkTime` (before the approval call) and `recordTime` (after it). */
module JoinGate {
  import opened JoinTypes

  /** `recentJoins`: user id to the time their last approval was recorded. */
  type Store = map<UserId, Millis>

  datatype StepResult = StepResult(outcome: Outcome, commands: seq<Command>, store: Store)

  /** The user's last approval is less than one window old at `now`. The
      comparison is strict, and a user with no entry is never recent. */
  function Recent(store: Store, user: UserId, now: Millis): (b: bool)
    ensures user !in store ==> !b
    ensures user in store ==> (b <==> now < store[user] + DebounceWindow)
  {
    user in store && now - store[user] < DebounceWindow
  }

  /** `store` and `store'` agree on every user other than `user`. */
  ghost predicate OthersUnchanged(store: Store, store': Store, user: UserId) {
    forall v :: v != user ==> (v in store <==> v in store') && (v in store ==> store[v] == store'[v])
  }

  /** The commands of an outcome: none when suppressed, then the approval,
      then the greeting, then the one scheduled deletion of the greeting. */
  ghost predicate CommandsMatch(outcome: Outcome, commands: seq<Command>, req: JoinRequest, sendResult: SendResult) {
    match outcome
    case Suppressed => commands == []
    case ApproveFailed => commands == [Approve(req.chat, req.user)]
    case GreetFailed =>
      commands == [Approve(req.chat, req.user), Send(req.chat, Greeting(req.firstName))]
    case Welcomed =>
      && sendResult.Sent?
      && commands == [Approve(req.chat, req.user), Send(req.chat, Greeting(req.firstName)),
                      ScheduleDelete(sendResult.message.chat, sendResult.message.messageId, DeleteDelay)]
  }

  /** The part of the handler that runs once the approval call has returned,
      applied to the map as it stands at that moment. */
  function Resume(store: Store, req: JoinRequest, recordTime: Millis, approveOk: bool,
                  sendResult: SendResult): (r: StepResult)
    ensures r.outcome != Suppressed
    ensures r.outcome.Accepted() <==> approveOk
    ensures r.outcome == Welcomed <==> approveOk && sendResult.Sent?
    ensures CommandsMatch(r.outcome, r.commands, req, sendResult)
    ensures !approveOk ==> r.store == store
    ensures approveOk ==> req.user in r.store && r.store[req.user] == recordTime
    ensures r.store.Keys == if approveOk then store.Keys + {req.user} else store.Keys
    ensures OthersUnchanged(store, r.store, req.user)
  {
    var approve := Approve(req.chat, req.user);
    if !approveOk then
      StepResult(ApproveFailed, [approve], store)
    else
      var recorded := store[req.user := recordTime];
      var greet := Send(req.chat, Greeting(req.firstName));
      match sendResult
      case SendFailed => StepResult(GreetFailed, [approve, greet], recorded)
      case Sent(m) => StepResult(Welcomed, [approve, greet, ScheduleDelete(m.chat, m.messageId, DeleteDelay)], recorded)
  }

  /** Handles one join request from start to end with nothing interleaved. */
  function Step(store: Store, req: JoinRequest, checkTime: Millis, recordTime: Millis,
                approveOk: bool, sendResult: SendResult): (r: StepResult)
    ensures r.outcome == Suppressed <==> Recent(store, req.user, checkTime)
    ensures r.outcome.Accepted() <==> !Recent(store, req.user, checkTime) && approveOk
    ensures r.outcome == Welcomed <==> !Recent(store, req.user, checkTime) && approveOk && sendResult.Sent?
    ensures CommandsMatch(r.outcome, r.commands, req, sendResult)
    ensures !r.outcome.Accepted() ==> r.store == store
    ensures r.outcome.Accepted() ==> req.user in r.store && r.store[req.user] == recordTime
    ensures OthersUnchanged(store, r.store, req.user)
    ensures store.Keys <= r.store.Keys
  {
    if Recent(store, req.user, checkTime) then
      StepResult(Suppressed, [], store)
    else
      Resume(store, req, recordTime, approveOk, sendResult)
  }

  /** Exactly one deletion is scheduled when, and only when, the greeting was
      sent, and it targets the message the client returned. */
  lemma OneDeletePerGreeting(store: Store, req: JoinRequest, checkTime: Millis, recordTime: Millis,
                             approveOk: bool, sendResult: SendResult)
    ensures var r := Step(store, req, checkTime, recordTime, approveOk, sendResult);
      && (r.outcome == Welcomed ==>
            && r.commands[|r.commands| - 1] == ScheduleDelete(sendResult.message.chat, sendResult.message.messageId, DeleteDelay)
            && forall i :: 0 <= i < |r.commands| - 1 ==> !r.commands[i].ScheduleDelete?)
      && (r.outcome != Welcomed ==> forall c :: c in r.commands ==> !c.ScheduleDelete?)
  {
  }

  /** Exactly one window after the recorded time the user is let through:
      the approval is attempted. */
  lemma WindowIsStrict(store: Store, req: JoinRequest, recordTime: Millis,
                       approveOk: bool, sendResult: SendResult)
    requires req.user in store
    ensures var r := Step(store, req, store[req.user] + DebounceWindow, recordTime, approveOk, sendResult);
      r.outcome != Suppressed && r.commands[0] == Approve(req.chat, req.user)
  {
  }

  /** With a clock that does not run backwards within the call, the time
      recorded for an accepted user is no earlier than the time checked, and a
      request from that user is ignored for one window after it. */
  lemma AcceptedUserIsRecent(store: Store, req: JoinRequest, checkTime: Millis, recordTime: Millis,
                             approveOk: bool, sendResult: SendResult, later: Millis)
    requires checkTime <= recordTime
    requires recordTime <= later < recordTime + DebounceWindow
    ensures var r := Step(store, req, checkTime, recordTime, approveOk, sendResult);
      r.outcome.Accepted() ==> r.store[req.user] >= checkTime && Recent(r.store, req.user, later)
  {
  }

  /** A user who is let through at some time is let through at every later
      time as long as the map is not changed; in particular a failed approval
      leaves the user free to retry at once. */
  lemma AdmissibleStaysAdmissible(store: Store, req: JoinRequest, checkTime: Millis, recordTime: Millis,
                                  sendResult: SendResult, retryTime: Millis)
    requires !Recent(store, req.user, checkTime)
    requires checkTime <= retryTime
    ensures var r := Step(store, req, checkTime, recordTime, false, sendResult);
      r.outcome == ApproveFailed && !Recent(r.store, req.user, retryTime)
  {
  }
}
