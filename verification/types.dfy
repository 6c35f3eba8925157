/** Values exchanged between the join-request handler and the Telegram client:
    the incoming request, the commands the handler issues, the replies it
    receives, and the outcome of handling one request. */
module JoinTypes {

  type UserId = int
  type ChatId = int
  type MessageId = int

  /** Milliseconds since the epoch, as `Date.now()` returns them. Kept as an
      unbounded `int` so that `now - last` keeps its sign when the clock goes
      backwards. */
  type Millis = int

  /** How long after an accepted request the same user is ignored. */
  const DebounceWindow: Millis := 30000

  /** How long the welcome message stays before its deletion fires. */
  const DeleteDelay: Millis := 10000

  datatype Option<T> = None | Some(value: T)

  /** A `chat_join_request` update: the channel, the requesting user, and the
      user's first name. */
  datatype JoinRequest = JoinRequest(chat: ChatId, user: UserId, firstName: string)

  /** The message `sendMessage` returns: its own chat and message id. */
  datatype SentMessage = SentMessage(chat: ChatId, messageId: MessageId)

  /** What the client's `sendMessage` call produced. */
  datatype SendResult = SendFailed | Sent(message: SentMessage)

  /** A call the handler makes on the Telegram client. `ScheduleDelete` is the
      timer that later calls `deleteMessage`; its firing is not modelled. */
  datatype Command =
    | Approve(chat: ChatId, user: UserId)
    | Send(chat: ChatId, text: string)
    | ScheduleDelete(chat: ChatId, messageId: MessageId, delay: Millis)

  /** How the handling of one request ended. Both failures end in the same
      catch block; they are told apart here because their effects differ. */
  datatype Outcome = Suppressed | ApproveFailed | GreetFailed | Welcomed {
    /** The approval call went through, so the user's time was recorded. */
    predicate Accepted() {
      GreetFailed? || Welcomed?
    }
  }

  const GreetingPrefix: string := "Hi "
  const GreetingSuffix: string := ", Welcome to our Channel..."

  /** The welcome text sent to the channel for a user with this first name. */
  function Greeting(firstName: string): (r: string)
    ensures |r| == |GreetingPrefix| + |firstName| + |GreetingSuffix|
    ensures r[..|GreetingPrefix|] == GreetingPrefix
    ensures r[|GreetingPrefix|..|GreetingPrefix| + |firstName|] == firstName
    ensures r[|r| - |GreetingSuffix|..] == GreetingSuffix
  {
    GreetingPrefix + firstName + GreetingSuffix
  }

  /** Reads the first name back out of a welcome text; `None` when the text
      is not a welcome text. */
  function GreetedName(text: string): (r: Option<string>)
    ensures r.Some? ==> |r.value| + |GreetingPrefix| + |GreetingSuffix| == |text|
  {
    var p := |GreetingPrefix|;
    var q := |GreetingSuffix|;
    if |text| >= p + q && text[..p] == GreetingPrefix && text[|text| - q..] == GreetingSuffix
    then Some(text[p..|text| - q])
    else None
  }

  /** Every welcome text names the user it was built for. */
  lemma GreetingRoundTrip(firstName: string)
    ensures GreetedName(Greeting(firstName)) == Some(firstName)
  {
  }

  /** A text that reads as a welcome text is the welcome text of the name read. */
  lemma GreetedNameSound(text: string, firstName: string)
    requires GreetedName(text) == Some(firstName)
    ensures Greeting(firstName) == text
  {
  }

  /** Distinct first names give distinct welcome texts. */
  lemma GreetingInjective(a: string, b: string)
    requires Greeting(a) == Greeting(b)
    ensures a == b
  {
  }
}
