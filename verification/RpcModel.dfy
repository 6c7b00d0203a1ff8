/** One RPC client as a state machine: a queue of requests, the status of its one
    connection, and what the environment may do to it. Time is a real number. */
module RpcModel {
  import opened Options

  /** `HTTPClient::Status`. */
  datatype Status =
    | Disconnected | Resolving | CantResolve | Connecting | CantConnect
    | Connected | Requesting | Body | ConnectionError | TlsHandshakeError

  datatype Error = Timeout | ParseError | NoConnection | ConnectFailed(code: int) | SendFailed(code: int)

  /** What a caller hands to `asynchronous_request`. */
  datatype NewRequest = NewRequest(id: int, timeout: real, hasCallback: bool, hasErrorCallback: bool)

  /** A queued request; `serial` is its place in the order of enqueueing. */
  datatype Request = Request(serial: nat, timeout: real, identifier: int, hasCallback: bool, hasErrorCallback: bool)

  /** A parsed response: its "id", if it has one. */
  datatype Response = Response(id: Option<int>)

  /** How a request left the queue. `called` says whether there was a callback
      to call, `idSkipped` whether `skip_id` was set then. */
  datatype Completion =
    | Succeeded(request: Request, response: Response, called: bool, idSkipped: bool)
    | Failed(request: Request, error: Error, called: bool)

  /** `enqueued` and `log` are the history: every request ever enqueued, and how
      requests left the queue. */
  datatype Client = Client(
    queue: seq<Request>, status: Status, skipId: bool, enqueued: seq<Request>, log: seq<Completion>)

  /** The environment of one tick: how connecting goes, the status polled, how
      sending goes, the status after reading the body and what the body parses
      to, and what the callbacks enqueue. */
  datatype Env = Env(
    connect: Attempt, polled: Status, send: Attempt, afterBody: Status, parsed: Option<Response>,
    callback: seq<NewRequest>, nextCallback: seq<NewRequest>)

  /** A successful attempt leaves the given status. */
  datatype Attempt = Done(status: Status) | Refused(code: int)

  /** Reading the front of an empty queue is undefined behaviour. */
  datatype Outcome = Ran(client: Client) | ReadEmptyFront

  datatype Event = Enqueue(request: NewRequest) | SetSkipId(skipId: bool) | Tick(delta: real, env: Env)

  // The operations

  function Initial(): Client {
    Client([], Disconnected, false, [], [])
  }

  predicate Completed(c: Client) {
    c.status == Disconnected && c.queue == []
  }

  /** `asynchronous_request`. */
  function Push(c: Client, r: NewRequest): Client {
    var data := Request(|c.enqueued|, r.timeout, if c.skipId then 0 else r.id, r.hasCallback, r.hasErrorCallback);
    c.(queue := c.queue + [data], enqueued := c.enqueued + [data])
  }

  function PushAll(c: Client, rs: seq<NewRequest>): Client
    decreases rs
  {
    if rs == [] then c else PushAll(Push(c, rs[0]), rs[1..])
  }

  /** The callback runs while its request is still at the front; then it is popped. */
  function FinalizeFaulty(c: Client, error: Error, reentrant: seq<NewRequest>): Outcome {
    if c.queue == [] then ReadEmptyFront
    else
      var front := c.queue[0];
      var closed := c.(status := Disconnected);
      Ran(Pop(if front.hasErrorCallback then PushAll(closed, reentrant) else closed,
              Failed(front, error, front.hasErrorCallback)))
  }

  function FinalizeRequest(c: Client, response: Response, reentrant: seq<NewRequest>): Outcome {
    if c.queue == [] then ReadEmptyFront
    else
      var front := c.queue[0];
      var closed := c.(status := Disconnected);
      Ran(Pop(if front.hasCallback then PushAll(closed, reentrant) else closed,
              Succeeded(front, response, front.hasCallback, c.skipId)))
  }

  function Pop(c: Client, done: Completion): Client {
    if c.queue == [] then c else c.(queue := c.queue[1..], log := c.log + [done])
  }

  /** The C++ code compares the id as `unsigned int`. */
  function Unsigned(x: int): int {
    x % 0x1_0000_0000
  }

  predicate IsOwn(response: Response, request: Request) {
    response.id.Some? && Unsigned(response.id.value) == Unsigned(request.identifier)
  }

  /** `process_body`, once the chunk is read. */
  function ProcessBody(c: Client, env: Env, reentrant: seq<NewRequest>): Outcome {
    var read := c.(status := env.afterBody);
    if env.afterBody == Body then Ran(read)
    else if env.parsed.None? then FinalizeFaulty(read, ParseError, reentrant)
    else if c.skipId then FinalizeRequest(read, env.parsed.value, reentrant)
    else if c.queue == [] then ReadEmptyFront
    else if !IsOwn(env.parsed.value, c.queue[0]) then Ran(read)
    else FinalizeRequest(read, env.parsed.value, reentrant)
  }

  function ProcessMessageSending(c: Client, env: Env, reentrant: seq<NewRequest>): Outcome {
    if c.queue == [] then ReadEmptyFront
    else match env.send
         case Done(status) => Ran(c.(status := status))
         case Refused(code) => FinalizeFaulty(c, SendFailed(code), reentrant)
  }

  /** Polling a closed connection leaves it closed. */
  function Poll(c: Client, env: Env): Client {
    if c.status == Disconnected then c else c.(status := env.polled)
  }

  /** The second half of `process`. */
  function Dispatch(c: Client, env: Env, reentrant: seq<NewRequest>): Outcome {
    match c.status
    case Connecting => Ran(c)
    case Resolving => Ran(c)
    case Requesting => Ran(c)
    case Connected => ProcessMessageSending(c, env, reentrant)
    case Body => ProcessBody(c, env, reentrant)
    case _ => FinalizeFaulty(c, NoConnection, reentrant)
  }

  function InitiateConnection(c: Client, env: Env): Outcome {
    match env.connect
    case Done(status) => Ran(c.(status := status))
    case Refused(code) => FinalizeFaulty(c, ConnectFailed(code), env.callback)
  }

  function UpdateTimeouts(c: Client, delta: real): Client {
    if c.queue == [] then c else c.(queue := [c.queue[0].(timeout := c.queue[0].timeout - delta)] + c.queue[1..])
  }

  /** `process`. */
  function Process(c: Client, delta: real, env: Env): Outcome {
    if Completed(c) then Ran(c)
    else if c.status == Disconnected then
      match InitiateConnection(c, env)
      case ReadEmptyFront => ReadEmptyFront
      case Ran(c') => Dispatch(Poll(c', env), env, if env.connect.Refused? then env.nextCallback else env.callback)
    else if c.queue == [] then ReadEmptyFront
    else
      var waited := UpdateTimeouts(c, delta);
      if waited.queue[0].timeout < 0.0 then FinalizeFaulty(waited, Timeout, env.callback)
      else Dispatch(Poll(waited, env), env, env.callback)
  }

  function Step(c: Client, e: Event): Outcome {
    match e
    case Enqueue(r) => Ran(Push(c, r))
    case SetSkipId(b) => Ran(c.(skipId := b))
    case Tick(delta, env) => Process(c, delta, env)
  }

  function Run(c: Client, events: seq<Event>): Outcome
    decreases events
  {
    if events == [] then Ran(c)
    else match Step(c, events[0])
         case ReadEmptyFront => ReadEmptyFront
         case Ran(c') => Run(c', events[1..])
  }
}
