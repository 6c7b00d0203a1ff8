/** What every run of the RPC client keeps, and when a tick misbehaves. */
module RpcSafety {
  import opened Options
  import opened RpcModel

  predicate SameRequest(r: Request, r': Request) {
    r == r'.(timeout := r.timeout)
  }

  /** Finished and queued requests together are the enqueued ones, in order. */
  predicate Conserved(c: Client) {
    && |c.log| + |c.queue| == |c.enqueued|
    && (forall i :: 0 <= i < |c.enqueued| ==> c.enqueued[i].serial == i)
    && (forall i :: 0 <= i < |c.log| ==> SameRequest(c.log[i].request, c.enqueued[i]))
    && (forall i :: 0 <= i < |c.queue| ==> SameRequest(c.queue[i], c.enqueued[|c.log| + i]))
    && (forall i :: 1 <= i < |c.queue| ==> c.queue[i] == c.enqueued[|c.log| + i])
  }

  /** A success callback saw a response with the id of its request, unless ids were skipped;
      exactly the requests with a callback of the right kind had it called. */
  predicate Answered(d: Completion) {
    match d
    case Succeeded(request, response, called, idSkipped) =>
      (idSkipped || IsOwn(response, request)) && called == request.hasCallback
    case Failed(request, error, called) => called == request.hasErrorCallback
  }

  predicate Inv(c: Client) {
    && Conserved(c)
    && (c.status != Disconnected ==> c.queue != [])
    && forall i :: 0 <= i < |c.log| ==> Answered(c.log[i])
  }

  /** The queue has work and no connection, and connecting is refused: the one
      case in which `process` finishes a request and then falls through. */
  predicate ConnectRefused(c: Client, env: Env) {
    c.queue != [] && c.status == Disconnected && env.connect.Refused?
  }

  lemma PushKeeps(c: Client, r: NewRequest)
    requires Inv(c)
    ensures Inv(Push(c, r))
    ensures c.queue <= Push(c, r).queue && c.enqueued <= Push(c, r).enqueued
  {
  }

  lemma {:induction false} PushAllKeeps(c: Client, rs: seq<NewRequest>)
    requires Inv(c)
    ensures var c' := PushAll(c, rs);
            && Inv(c') && c'.log == c.log && c'.status == c.status && c'.skipId == c.skipId
            && c.queue <= c'.queue && |c'.queue| == |c.queue| + |rs| && c.enqueued <= c'.enqueued
    decreases rs
  {
    if rs != [] {
      PushKeeps(c, rs[0]);
      PushAllKeeps(Push(c, rs[0]), rs[1..]);
    }
  }

  /** A queue with its connection closed, all else as before. */
  lemma ClosedKeeps(c: Client)
    requires Inv(c)
    ensures Inv(c.(status := Disconnected))
  {
  }

  lemma PopKeeps(c: Client, done: Completion)
    requires Inv(c) && c.queue != [] && c.status == Disconnected
    requires done.request == c.queue[0] && Answered(done)
    ensures Inv(Pop(c, done))
  {
  }

  /** One request more is finished, and it is the one that was at the front. */
  predicate FinishesFront(c: Client, o: Outcome) {
    && o.Ran? && Inv(o.client) && o.client.status == Disconnected
    && |o.client.log| == |c.log| + 1 && c.log <= o.client.log
    && c.enqueued <= o.client.enqueued && o.client.skipId == c.skipId
    && c.queue != [] && c.queue[1..] <= o.client.queue
  }

  lemma FinalizeFaultyKeeps(c: Client, error: Error, reentrant: seq<NewRequest>)
    requires Inv(c) && c.queue != []
    ensures var o := FinalizeFaulty(c, error, reentrant);
            && FinishesFront(c, o)
            && |o.client.queue| == |c.queue| - 1 + if c.queue[0].hasErrorCallback then |reentrant| else 0
  {
    var closed := c.(status := Disconnected);
    ClosedKeeps(c);
    PushAllKeeps(closed, reentrant);
    var ready := if c.queue[0].hasErrorCallback then PushAll(closed, reentrant) else closed;
    PopKeeps(ready, Failed(c.queue[0], error, c.queue[0].hasErrorCallback));
  }

  lemma FinalizeRequestKeeps(c: Client, response: Response, reentrant: seq<NewRequest>)
    requires Inv(c) && c.queue != []
    requires c.skipId || IsOwn(response, c.queue[0])
    ensures FinishesFront(c, FinalizeRequest(c, response, reentrant))
  {
    var closed := c.(status := Disconnected);
    ClosedKeeps(c);
    PushAllKeeps(closed, reentrant);
    var ready := if c.queue[0].hasCallback then PushAll(closed, reentrant) else closed;
    PopKeeps(ready, Succeeded(c.queue[0], response, c.queue[0].hasCallback, c.skipId));
  }

  /** No request is finished; only the status may differ. */
  predicate OnlyStatusDiffers(c: Client, o: Outcome) {
    o.Ran? && o.client == c.(status := o.client.status)
  }

  lemma StatusKeeps(c: Client, status: Status)
    requires Inv(c) && c.queue != []
    ensures Inv(c.(status := status))
  {
  }

  lemma ReadFinishes(c: Client, read: Client, o: Outcome)
    requires read == c.(status := read.status) && FinishesFront(read, o)
    ensures FinishesFront(c, o)
  {
  }

  /** The second half of `process` finishes the front request or none. */
  lemma DispatchKeeps(c: Client, env: Env, reentrant: seq<NewRequest>)
    requires Inv(c) && c.queue != []
    ensures var o := Dispatch(c, env, reentrant);
            && (FinishesFront(c, o) || OnlyStatusDiffers(c, o))
            && o.Ran? && Inv(o.client)
    ensures c.status == Disconnected ==> FinishesFront(c, Dispatch(c, env, reentrant))
  {
    hide Inv, FinalizeFaulty, FinalizeRequest, IsOwn;
    match c.status
    case Connected =>
      if env.send.Refused? {
        FinalizeFaultyKeeps(c, SendFailed(env.send.code), reentrant);
      } else {
        StatusKeeps(c, env.send.status);
      }
    case Body =>
      var read := c.(status := env.afterBody);
      StatusKeeps(c, env.afterBody);
      if env.afterBody != Body {
        FinalizeFaultyKeeps(read, ParseError, reentrant);
        ReadFinishes(c, read, FinalizeFaulty(read, ParseError, reentrant));
        if env.parsed.Some? && (c.skipId || IsOwn(env.parsed.value, c.queue[0])) {
          FinalizeRequestKeeps(read, env.parsed.value, reentrant);
          ReadFinishes(c, read, FinalizeRequest(read, env.parsed.value, reentrant));
        }
      }
    case Connecting =>
    case Resolving =>
    case Requesting =>
    case _ =>
      FinalizeFaultyKeeps(c, NoConnection, reentrant);
  }

  lemma WaitingKeeps(c: Client, delta: real)
    requires Inv(c) && c.queue != []
    ensures Inv(UpdateTimeouts(c, delta))
  {
  }

  /** A tick finishes the front request, or leaves the whole queue in place but
      for the timeout of its front. */
  predicate TickFrame(c: Client, c': Client, delta: real) {
    || (|c'.log| == |c.log| + 1 && c.queue != [] && c.queue[1..] <= c'.queue)
    || (c'.log == c.log && c'.queue == c.queue)
    || (c'.log == c.log && c.status != Disconnected && c'.queue == UpdateTimeouts(c, delta).queue
        && (c.queue != [] ==> c.queue[0].timeout - delta >= 0.0))
  }

  /** One tick, connecting not being refused: it never reads an empty queue and
      finishes at most the front request. */
  lemma TickKeeps(c: Client, delta: real, env: Env)
    requires Inv(c) && !ConnectRefused(c, env)
    ensures var o := Process(c, delta, env);
            && o.Ran? && Inv(o.client)
            && c.log <= o.client.log && |o.client.log| <= |c.log| + 1
            && c.enqueued <= o.client.enqueued
            && TickFrame(c, o.client, delta)
    ensures c.status != Disconnected && c.queue != [] && |Process(c, delta, env).client.log| == |c.log| ==>
              Process(c, delta, env).client.queue == UpdateTimeouts(c, delta).queue && c.queue[0].timeout - delta >= 0.0
  {
    if !Completed(c) {
      if c.status == Disconnected {
        var connected := c.(status := env.connect.status);
        StatusKeeps(c, env.connect.status);
        StatusKeeps(c, env.polled);
        DispatchKeeps(Poll(connected, env), env, env.callback);
      } else {
        var waited := UpdateTimeouts(c, delta);
        WaitingKeeps(c, delta);
        FinalizeFaultyKeeps(waited, Timeout, env.callback);
        StatusKeeps(waited, env.polled);
        DispatchKeeps(Poll(waited, env), env, env.callback);
      }
    }
  }

  /** What happens when connecting is refused: the front request fails, and then
      the next one fails too, or the front of an empty queue is read. */
  lemma RefusedTick(c: Client, delta: real, env: Env)
    requires Inv(c) && ConnectRefused(c, env)
    ensures Process(c, delta, env) == ReadEmptyFront
       <==> |c.queue| == 1 && (!c.queue[0].hasErrorCallback || env.callback == [])
    ensures Process(c, delta, env).Ran? ==>
              Inv(Process(c, delta, env).client) && |Process(c, delta, env).client.log| == |c.log| + 2
  {
    FinalizeFaultyKeeps(c, ConnectFailed(env.connect.code), env.callback);
    var c' := FinalizeFaulty(c, ConnectFailed(env.connect.code), env.callback).client;
    if c'.queue != [] {
      FinalizeFaultyKeeps(c', NoConnection, env.nextCallback);
    }
  }

  /** A tick behaves, finishing one request at most and never reading an empty
      queue, exactly when it does not try to connect in vain. */
  lemma TickBehavesIff(c: Client, delta: real, env: Env)
    requires Inv(c)
    ensures (Process(c, delta, env).Ran? && |Process(c, delta, env).client.log| <= |c.log| + 1)
            <==> !ConnectRefused(c, env)
  {
    if ConnectRefused(c, env) {
      RefusedTick(c, delta, env);
    } else {
      TickKeeps(c, delta, env);
    }
  }

  /** A run in which no tick tries to connect in vain. */
  predicate ConnectsSucceed(events: seq<Event>) {
    forall i :: 0 <= i < |events| && events[i].Tick? ==> events[i].env.connect.Done?
  }

  lemma StepKeeps(c: Client, e: Event)
    requires Inv(c) && (e.Tick? ==> e.env.connect.Done?)
    ensures var o := Step(c, e);
            o.Ran? && Inv(o.client) && c.log <= o.client.log && c.enqueued <= o.client.enqueued
  {
    match e
    case Enqueue(r) => PushKeeps(c, r);
    case SetSkipId(b) =>
    case Tick(delta, env) => TickKeeps(c, delta, env);
  }

  /** Safety over whole runs: under any interleaving of enqueues (also from
      callbacks), setting changes, ticks and connection statuses, with connects
      succeeding, an empty queue is never read and the invariant holds: the
      finished requests are a prefix of the enqueued ones in order, each finished
      once, an open connection has work, and each success saw its own id. */
  lemma {:induction false} RunSafe(c: Client, events: seq<Event>)
    requires Inv(c) && ConnectsSucceed(events)
    ensures var o := Run(c, events);
            o.Ran? && Inv(o.client) && c.log <= o.client.log && c.enqueued <= o.client.enqueued
    decreases events
  {
    if events != [] {
      StepKeeps(c, events[0]);
      RunSafe(Step(c, events[0]).client, events[1..]);
    }
  }

  lemma InitialInv()
    ensures Inv(Initial())
  {
  }

  /** The same, spelled out, for every run of a client from its construction on. */
  lemma RunFromStartSafe(events: seq<Event>)
    requires ConnectsSucceed(events)
    ensures Run(Initial(), events).Ran?
    ensures var c := Run(Initial(), events).client;
            && |c.log| + |c.queue| == |c.enqueued|
            && (forall i :: 0 <= i < |c.log| ==>
                  c.enqueued[i].serial == i && SameRequest(c.log[i].request, c.enqueued[i]) && Answered(c.log[i]))
            && (c.status != Disconnected ==> c.queue != [])
  {
    hide Run, Answered;
    InitialInv();
    RunSafe(Initial(), events);
  }

  /** Without that hypothesis a run of two events reads the front of an empty queue. */
  lemma RefusedRunFaults(r: NewRequest, delta: real, env: Env)
    requires env.connect.Refused? && env.callback == []
    ensures Run(Initial(), [Enqueue(r), Tick(delta, env)]) == ReadEmptyFront
  {
    var c := Push(Initial(), r);
    assert Run(Initial(), [Enqueue(r), Tick(delta, env)]) == Run(c, [Tick(delta, env)]);
    RefusedTick(c, delta, env);
  }
}
