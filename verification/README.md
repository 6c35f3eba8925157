# Telegram channel join-request gate

A Dafny model of the join-request handler of a Telegram bot that auto-approves
channel join requests (`approveJoinRequest` in `bot.js`). For each
`chat_join_request` update the handler does the following:

- It looks up the requesting user in a process-wide map `recentJoins` from user id
  to the time of that user's last approval.
- It ignores the request when that time is less than 30000 ms old.
- Otherwise it asks the Telegram client to approve the request.
- If the approval succeeds, it records the current time for the user.
- It then sends the greeting `Hi <first name>, Welcome to our Channel...`.
- If the greeting was sent, it sets a 10000 ms timer that deletes the greeting.
- A failed approval or a failed send is caught and logged.

The model is functional. The map is an immutable `map<int, int>`. The Telegram
client is replaced by its answers: whether the approval succeeded, and the
message returned by `sendMessage` or a failure. The two `Date.now()` reads are
parameters. `checkTime` is read before the approval call and `recordTime` after it
returns. The calls the handler makes are returned as a command list
(`Approve`, `Send`, `ScheduleDelete`).

Modules:

- `JoinTypes` (`types.dfy`): requests, commands, outcomes, the two constants,
  and the greeting text. Reading the name back out of a greeting inverts it.
- `JoinGate` (`gate.dfy`): the single-request step. `Step` runs the check and
  then `Resume`. `Resume` is the code after the `await` on the approval, and it
  acts on the map as it stands when the approval returns.
- `JoinRun` (`run.dfy`): requests handled one after another. It proves what the
  map holds after a run, the debounce guarantee between accepted requests, and
  that the command log matches the outcomes.
- `Interleaving` (`interleave.dfy`): two overlapped handlers for one user. Both
  pass the check because the check and the recording are split by an `await`.
- `Scenarios` (`scenarios.dfy`): concrete runs from an empty map.

Notes on how `bot.js` behaves, which the model follows:

- The handler does not serialize the requests of one user. The check at
  `bot.js:21` and the write at `bot.js:31` are separated by the `await` at
  `bot.js:28`, so two overlapped requests of one user can both pass the check.
  `Interleaving.OverlapAdmitsDuplicate` exhibits such a pair.
- The recorded time is not the time that was checked. It is a second
  `Date.now()` read, taken after the approval call returns. The model keeps
  both reads.
- A failed approval and a failed send end in the same catch block
  (`bot.js:45-46`), but they differ in effect: after a failed send the
  recorded time stands. The model tells them apart as `ApproveFailed` and
  `GreetFailed`.

## Model

| member | source | states |
|---|---|---|
| JoinGate.Step | bot.js:16-48 | A request is ignored exactly when the user has an entry less than 30000 ms old at the check (a missing entry never ignores). Ignored means no command and an unchanged map. The approval is recorded exactly when it is attempted and succeeds. Only then does the map change: the requester's entry becomes the record time and no other user's entry moves. The commands follow the outcome: none, then Approve, then the greeting Send, then one ScheduleDelete of the returned message after 10000 ms. The key set never shrinks. |
| JoinGate.Resume | bot.js:26-47 | After the approval call returns: a failed approval issues only the approval and leaves the map as it is. A successful one sets the requester's entry to the record time even if the greeting then fails (no rollback). A deletion is scheduled exactly when the greeting was sent. |
| JoinGate.OneDeletePerGreeting | bot.js:34-43 | A sent greeting yields exactly one ScheduleDelete, last among the commands, aimed at the chat id and message id `sendMessage` returned, with delay 10000 ms. Any other outcome yields none. |
| JoinGate.Recent | bot.js:21 | The window test itself. Its contract recasts the test of `bot.js:21` by cases: a user with no entry is never recent, and a user with an entry is recent exactly until the recorded time plus 30000 ms. The consequences are proved in `JoinGate.WindowIsStrict`, `JoinGate.AcceptedUserIsRecent` and `JoinGate.AdmissibleStaysAdmissible`. |
| JoinTypes.Greeting | bot.js:34 | The greeting is `Hi `, then the first name, then `, Welcome to our Channel...`, and its length is the sum of the three parts. |
| JoinGate.WindowIsStrict | bot.js:21 | A request checked exactly 30000 ms after the recorded time is not ignored, and the approval is attempted. |
| JoinGate.AcceptedUserIsRecent | bot.js:21-31 | When the clock does not go back during the call, an accepted user's recorded time is at least the check time. A request from that user is ignored at any time within one window after it. |
| JoinGate.AdmissibleStaysAdmissible | bot.js:21-46 | A failed approval leaves the map unchanged. A user let through at some time is therefore let through again at any later retry. |
| JoinTypes.GreetingRoundTrip | bot.js:34 | The first name can be read back out of the greeting built for it. |
| JoinTypes.GreetedNameSound | bot.js:34 | Any text from which a name is read back is exactly the greeting of that name. |
| JoinTypes.GreetingInjective | bot.js:34 | Different first names give different greeting texts. |
| JoinRun.Run | bot.js:12-57 | Requests handled one after another over the shared map, from any starting map. There is one outcome per request, and the map's key set only grows. |
| JoinRun.StoreRecordsLastAcceptance | bot.js:28-31 | After a run, a user accepted during the run maps to the record time of their last accepted request. Any other user keeps exactly the entry, or the lack of one, from the starting map. |
| JoinRun.AcceptancesSeparated | bot.js:12-31 | In a sequential run with a clock that never goes back, two accepted requests of the same user are separated by at least 30000 ms. This is measured from the earlier request's recorded time to the later request's check. |
| JoinRun.WithinWindowSuppressed | bot.js:12-31 | In a sequential run with a clock that never goes back, once a request of a user is accepted, every later request of that user that checks less than 30000 ms after the recorded time is ignored. |
| JoinRun.SuppressedIffRecentAcceptance | bot.js:21-31 | A request in a run is ignored exactly when the user's last accepted request before it was recorded less than 30000 ms before its check. If the user has no earlier acceptance, it is ignored exactly when the starting map says the user is recent. |
| JoinRun.LogMatchesOutcomes | bot.js:28-43 | Over a whole run the client gets one approval call per request that is not ignored. It gets one greeting per accepted request and one scheduled deletion per greeting sent. Every deletion has the 10000 ms delay. |
| JoinRun.KeysNeverShrink | bot.js:13-31 | Entries are only set, never deleted: the map's key set after any prefix of a run is contained in the key set after any longer prefix. |
| Interleaving.Overlapped | bot.js:21-31 | Two handlers that both check before either approval returns each decide against the same snapshot of the map. The second one is accepted whenever that snapshot lets it through, whatever the first one recorded. |
| Interleaving.OverlapAdmitsDuplicate | bot.js:21-31 | A first request checks at 0 ms and records at 2 ms, and the client approves every request. Handled in sequence, a second request that checks at 3 ms, on a clock that never goes back, is ignored. Overlapped, a second request that checks at 1 ms, before the first one records, is also approved and greeted. The user is then approved twice within one window. |
| Scenarios.RepeatAfterWindow | bot.js:21-31 | From an empty map, a user accepted at 0 ms is ignored at 10000 ms and accepted again at 35000 ms. The map then holds 35000. |
| Scenarios.RetryAfterFailure | bot.js:26-46 | A failed approval at 0 ms leaves no entry, and a retry at 1 ms is accepted. |
| Scenarios.DistinctUsersIndependent | bot.js:21-31 | Two different users requesting at the same instant are both accepted. |

## Left out

- The Express app, body-parser, the `/health` route and the listening port (`bot.js:3-4`, `bot.js:9-10`, `bot.js:81-95`) are HTTP plumbing outside the handler.
- The `/start` and `/help` command handlers (`bot.js:59-79`) only send fixed text through the client.
- Loading dotenv, the token, polling setup and the `polling_error` handler (`bot.js:1-7`, `bot.js:86-89`) are I/O and configuration.
- The timer firing and the result of `deleteMessage` (`bot.js:37-43`) are not modelled. Only the scheduling of the delete is. A failed delete is caught and logged, so it changes no state.
- All `console.log` / `console.error` output is left out, and so is the outer try/catch around the handler (`bot.js:50-57`). The outer catch only matters when reading `msg.from.id` or `msg.chat.id` throws on a malformed update, which the model does not represent.
- General concurrency: runs are sequential. Only two overlapped handlers of one user are modelled (`Interleaving.Overlapped`), and its command list is simply the two handlers' commands one after the other, not the actual interleaved order of client calls.
- The reason an approval or a send failed is not modelled; only success or failure is.
- JavaScript numbers are doubles. `Date.now()` values are integers below 2^53, so the subtraction at `bot.js:21` is exact and `int` models it faithfully. No user id or time outside that range is considered.
- Dafny's `string` is a sequence of Unicode scalar values, while JavaScript strings are UTF-16 code units. So the lengths in `JoinTypes.Greeting`'s contract are not what JavaScript's `.length` would report for names outside the Basic Multilingual Plane. The handler never measures the text, so its behaviour is unaffected.
- A missing `first_name` would render as `undefined` in the template string. Telegram always sends a first name, so the model takes it as a string.
