/** What each request gets: the outcome of one tick from the environment alone,
    and runs in which a request is answered. */
module RpcAnswers {
  import opened Options
  import opened RpcModel
  import opened RpcSafety

  // What is queued

  /** The request that enqueueing r as the n-th one puts into the queue: its own
      id, or 0 while ids are skipped, and its callbacks as given. */
  function QueuedAs(r: NewRequest, n: nat, skipId: bool): Request {
    Request(n, r.timeout, if skipId then 0 else r.id, r.hasCallback, r.hasErrorCallback)
  }

  function AllQueuedAs(rs: seq<NewRequest>, n: nat, skipId: bool): (qs: seq<Request>)
    ensures |qs| == |rs|
  {
    seq(|rs|, i requires 0 <= i < |rs| => QueuedAs(rs[i], n + i, skipId))
  }

  /** Enqueueing puts the requests behind the queue, in their order, and changes
      nothing else. */
  lemma {:induction false} EnqueuedAs(c: Client, rs: seq<NewRequest>)
    ensures var added := AllQueuedAs(rs, |c.enqueued|, c.skipId);
            PushAll(c, rs) == c.(queue := c.queue + added, enqueued := c.enqueued + added)
    decreases rs
  {
    if rs == [] {
      assert AllQueuedAs(rs, |c.enqueued|, c.skipId) == [];
    } else {
      var c' := Push(c, rs[0]);
      EnqueuedAs(c', rs[1..]);
      assert AllQueuedAs(rs, |c.enqueued|, c.skipId)
          == [QueuedAs(rs[0], |c.enqueued|, c.skipId)] + AllQueuedAs(rs[1..], |c'.enqueued|, c.skipId);
    }
  }

  // One tick

  /** The tick finishes the front request as `done`, closes the connection, and
      queues what the callback enqueues, if there is one to call. */
  ghost predicate Finishes(c: Client, o: Outcome, done: Completion, reentrant: seq<NewRequest>) {
    && c.queue != [] && o.Ran?
    && var added := AllQueuedAs(if done.called then reentrant else [], |c.enqueued|, c.skipId);
       o.client == Client(c.queue[1..] + added, Disconnected, c.skipId, c.enqueued + added, c.log + [done])
  }

  /** The tick finishes nothing: the front has waited, and the status is `next`. */
  ghost predicate GoesOn(c: Client, o: Outcome, delta: real, next: Status) {
    c.queue != [] && o == Ran(Client([Front(c, delta)] + c.queue[1..], next, c.skipId, c.enqueued, c.log))
  }

  /** The front request as the tick sees it; time runs while a connection is open. */
  function Front(c: Client, delta: real): Request
    requires c.queue != []
  {
    if c.status == Disconnected then c.queue[0] else c.queue[0].(timeout := c.queue[0].timeout - delta)
  }

  /** The tick polls an open connection: an old one whose front request is not
      timed out, or one it has just opened. */
  predicate Polls(c: Client, delta: real, env: Env) {
    && c.queue != []
    && if c.status == Disconnected then env.connect.Done? && env.connect.status != Disconnected
       else c.queue[0].timeout - delta >= 0.0
  }

  /** The response is to this request: the ids agree as 32-bit unsigned integers. */
  predicate Answers(response: Response, request: Request) {
    response.id.Some? && (response.id.value - request.identifier) % 0x1_0000_0000 == 0
  }

  lemma OwnIsAnswer(response: Response, request: Request)
    ensures IsOwn(response, request) <==> Answers(response, request)
  {
    if response.id.Some? {
      Unsigneds(response.id.value, request.identifier);
    }
  }

  lemma Unsigneds(x: int, y: int)
    ensures x % 0x1_0000_0000 == y % 0x1_0000_0000 <==> (x - y) % 0x1_0000_0000 == 0
  {
  }

  lemma Unpopped(c: Client, done: Completion, reentrant: seq<NewRequest>, open: Client)
    requires c.queue != [] && open.queue != [] && open.queue[1..] == c.queue[1..]
    requires open == c.(queue := open.queue, status := open.status)
    ensures var closed := open.(status := Disconnected);
            Finishes(c, Ran(Pop(if done.called then PushAll(closed, reentrant) else closed, done)), done, reentrant)
  {
    var closed := open.(status := Disconnected);
    EnqueuedAs(closed, if done.called then reentrant else []);
    assert PushAll(closed, []) == closed;
  }

  lemma FaultyFinishes(c: Client, open: Client, error: Error, reentrant: seq<NewRequest>)
    requires c.queue != [] && open.queue != [] && open.queue[1..] == c.queue[1..]
    requires open == c.(queue := open.queue, status := open.status)
    ensures var front := open.queue[0];
            Finishes(c, FinalizeFaulty(open, error, reentrant), Failed(front, error, front.hasErrorCallback), reentrant)
  {
    hide PushAll, Finishes, Pop;
    Unpopped(c, Failed(open.queue[0], error, open.queue[0].hasErrorCallback), reentrant, open);
  }

  lemma RequestFinishes(c: Client, open: Client, response: Response, reentrant: seq<NewRequest>)
    requires c.queue != [] && open.queue != [] && open.queue[1..] == c.queue[1..]
    requires open == c.(queue := open.queue, status := open.status)
    ensures var front := open.queue[0];
            Finishes(c, FinalizeRequest(open, response, reentrant),
                     Succeeded(front, response, front.hasCallback, c.skipId), reentrant)
  {
    hide PushAll, Finishes, Pop;
    Unpopped(c, Succeeded(open.queue[0], response, open.queue[0].hasCallback, c.skipId), reentrant, open);
  }

  /** The client as the switch of a polling tick finds it. */
  lemma PolledClient(c: Client, delta: real, env: Env)
    requires Polls(c, delta, env)
    ensures var open := Client([Front(c, delta)] + c.queue[1..], env.polled, c.skipId, c.enqueued, c.log);
            Process(c, delta, env) == Dispatch(open, env, env.callback)
  {
    hide Dispatch;
    assert [c.queue[0]] + c.queue[1..] == c.queue;
  }

  /** An id of its own, or skipped: the body read to the end answers the request. */
  predicate ReadsAnswer(c: Client, delta: real, env: Env) {
    && Polls(c, delta, env) && env.polled == Body && env.afterBody != Body
    && env.parsed.Some? && (c.skipId || Answers(env.parsed.value, c.queue[0]))
  }

  /** Then the request succeeds with that response. */
  lemma AnswerSucceeds(c: Client, delta: real, env: Env)
    requires ReadsAnswer(c, delta, env)
    ensures var front := Front(c, delta);
            Finishes(c, Process(c, delta, env), Succeeded(front, env.parsed.value, front.hasCallback, c.skipId),
                     env.callback)
  {
    hide FinalizeRequest, Finishes, Process, Answers, IsOwn;
    PolledClient(c, delta, env);
    var read := Client([Front(c, delta)] + c.queue[1..], env.afterBody, c.skipId, c.enqueued, c.log);
    OwnIsAnswer(env.parsed.value, Front(c, delta));
    SameAnswer(c, delta, env.parsed.value);
    RequestFinishes(c, read, env.parsed.value, env.callback);
  }

  lemma SameAnswer(c: Client, delta: real, response: Response)
    requires c.queue != []
    ensures Answers(response, Front(c, delta)) == Answers(response, c.queue[0])
  {
  }

  /** A response to someone else is dropped; reading goes on. */
  lemma ForeignResponseDropped(c: Client, delta: real, env: Env)
    requires Polls(c, delta, env) && env.polled == Body && env.afterBody != Body
    requires env.parsed.Some? && !c.skipId && !Answers(env.parsed.value, c.queue[0])
    ensures GoesOn(c, Process(c, delta, env), delta, env.afterBody)
  {
    hide FinalizeRequest, Process, Answers, IsOwn;
    PolledClient(c, delta, env);
    OwnIsAnswer(env.parsed.value, Front(c, delta));
    SameAnswer(c, delta, env.parsed.value);
  }

  /** While there is more of the body, reading goes on. */
  lemma MoreBodyGoesOn(c: Client, delta: real, env: Env)
    requires Polls(c, delta, env) && env.polled == Body && env.afterBody == Body
    ensures GoesOn(c, Process(c, delta, env), delta, Body)
  {
    hide Process;
    PolledClient(c, delta, env);
  }

  /** A body that is no dictionary fails the request with a parse error. */
  lemma UnparsedFails(c: Client, delta: real, env: Env)
    requires Polls(c, delta, env) && env.polled == Body && env.afterBody != Body && env.parsed.None?
    ensures var front := Front(c, delta);
            Finishes(c, Process(c, delta, env), Failed(front, ParseError, front.hasErrorCallback), env.callback)
  {
    hide FinalizeFaulty, Finishes, Process;
    PolledClient(c, delta, env);
    var read := Client([Front(c, delta)] + c.queue[1..], env.afterBody, c.skipId, c.enqueued, c.log);
    FaultyFinishes(c, read, ParseError, env.callback);
  }

  /** Running out of time fails the request with a timeout, whatever is polled. */
  lemma TimedOutFails(c: Client, delta: real, env: Env)
    requires c.queue != [] && c.status != Disconnected && c.queue[0].timeout - delta < 0.0
    ensures var front := Front(c, delta);
            Finishes(c, Process(c, delta, env), Failed(front, Timeout, front.hasErrorCallback), env.callback)
  {
    hide FinalizeFaulty, Finishes, Dispatch;
    FaultyFinishes(c, UpdateTimeouts(c, delta), Timeout, env.callback);
  }

  /** Connected, the request is sent and the status is what sending leaves. */
  lemma SentGoesOn(c: Client, delta: real, env: Env)
    requires Polls(c, delta, env) && env.polled == Connected && env.send.Done?
    ensures GoesOn(c, Process(c, delta, env), delta, env.send.status)
  {
    hide Process;
    PolledClient(c, delta, env);
  }

  lemma UnsentFails(c: Client, delta: real, env: Env)
    requires Polls(c, delta, env) && env.polled == Connected && env.send.Refused?
    ensures var front := Front(c, delta);
            Finishes(c, Process(c, delta, env), Failed(front, SendFailed(env.send.code), front.hasErrorCallback),
                     env.callback)
  {
    hide FinalizeFaulty, Finishes, Process;
    PolledClient(c, delta, env);
    var open := Client([Front(c, delta)] + c.queue[1..], env.polled, c.skipId, c.enqueued, c.log);
    FaultyFinishes(c, open, SendFailed(env.send.code), env.callback);
  }

  predicate InProgress(s: Status) {
    s == Connecting || s == Resolving || s == Requesting
  }

  lemma InProgressGoesOn(c: Client, delta: real, env: Env)
    requires Polls(c, delta, env) && InProgress(env.polled)
    ensures GoesOn(c, Process(c, delta, env), delta, env.polled)
  {
    hide Process;
    PolledClient(c, delta, env);
  }

  /** Any other status fails the request for want of a connection. */
  lemma NoConnectionFails(c: Client, delta: real, env: Env)
    requires Polls(c, delta, env) && !InProgress(env.polled) && env.polled != Connected && env.polled != Body
    ensures var front := Front(c, delta);
            Finishes(c, Process(c, delta, env), Failed(front, NoConnection, front.hasErrorCallback), env.callback)
  {
    hide FinalizeFaulty, Finishes, Process;
    PolledClient(c, delta, env);
    var open := Client([Front(c, delta)] + c.queue[1..], env.polled, c.skipId, c.enqueued, c.log);
    FaultyFinishes(c, open, NoConnection, env.callback);
  }

  /** So does a connection that is closed at once. */
  lemma ClosedAtOnceFails(c: Client, delta: real, env: Env)
    requires c.queue != [] && c.status == Disconnected && env.connect == Done(Disconnected)
    ensures var front := c.queue[0];
            Finishes(c, Process(c, delta, env), Failed(front, NoConnection, front.hasErrorCallback), env.callback)
  {
    hide FinalizeFaulty, Finishes;
    FaultyFinishes(c, c, NoConnection, env.callback);
  }

  /** Refused, the front request fails with the code of the refusal and, the tick
      going on, the next one for want of a connection. */
  lemma RefusedFailsTwo(c: Client, delta: real, env: Env)
    requires |c.queue| >= 2 && c.status == Disconnected && env.connect.Refused?
    ensures var (o, first, second) := (Process(c, delta, env), c.queue[0], c.queue[1]);
            && o.Ran? && o.client.status == Disconnected
            && o.client.log == c.log + [Failed(first, ConnectFailed(env.connect.code), first.hasErrorCallback),
                                        Failed(second, NoConnection, second.hasErrorCallback)]
  {
    hide FinalizeFaulty;
    var error := ConnectFailed(env.connect.code);
    FaultyFinishes(c, c, error, env.callback);
    var c' := FinalizeFaulty(c, error, env.callback).client;
    assert c'.queue[0] == c.queue[1];
    FaultyFinishes(c', c', NoConnection, env.nextCallback);
  }

  /** An idle client does nothing. */
  lemma IdleStays(c: Client, delta: real, env: Env)
    requires c.queue == [] && c.status == Disconnected
    ensures Process(c, delta, env) == Ran(c)
  {
  }

  /** A tick succeeds with a request exactly when it reads an answer to it. */
  lemma SucceedsIff(c: Client, delta: real, env: Env)
    requires Inv(c) && !ConnectRefused(c, env)
    ensures Process(c, delta, env).Ran?
    ensures var log := Process(c, delta, env).client.log;
            (|log| > |c.log| && log[|c.log|].Succeeded?) <==> ReadsAnswer(c, delta, env)
  {
    hide Process, Answers, Inv;
    TickKeeps(c, delta, env);
    if c.queue == [] {
      IdleWhenEmpty(c);
      IdleStays(c, delta, env);
    } else if c.status != Disconnected && c.queue[0].timeout - delta < 0.0 {
      TimedOutFails(c, delta, env);
    } else if !Polls(c, delta, env) {
      ClosedAtOnceFails(c, delta, env);
    } else {
      PollingAnswers(c, delta, env);
    }
  }

  lemma IdleWhenEmpty(c: Client)
    requires Inv(c) && c.queue == []
    ensures c.status == Disconnected
  {
  }

  lemma PollingAnswers(c: Client, delta: real, env: Env)
    requires Polls(c, delta, env) && Process(c, delta, env).Ran?
    ensures var log := Process(c, delta, env).client.log;
            (|log| > |c.log| && log[|c.log|].Succeeded?) <==> ReadsAnswer(c, delta, env)
  {
    hide Process, Answers;
    if env.polled == Connected {
      if env.send.Done? {
        SentGoesOn(c, delta, env);
      } else {
        UnsentFails(c, delta, env);
      }
    } else if env.polled == Body {
      if env.afterBody == Body {
        MoreBodyGoesOn(c, delta, env);
      } else if env.parsed.None? {
        UnparsedFails(c, delta, env);
      } else if ReadsAnswer(c, delta, env) {
        AnswerSucceeds(c, delta, env);
      } else {
        ForeignResponseDropped(c, delta, env);
      }
    } else if InProgress(env.polled) {
      InProgressGoesOn(c, delta, env);
    } else {
      NoConnectionFails(c, delta, env);
    }
  }

  // Runs

  lemma {:induction false} RunThen(c: Client, first: seq<Event>, last: seq<Event>)
    requires Run(c, first).Ran?
    ensures Run(c, first + last) == Run(Run(c, first).client, last)
    decreases first
  {
    hide Step;
    if first == [] {
      assert first + last == last;
    } else {
      RunThen(Step(c, first[0]).client, first[1..], last);
      assert (first + last)[1..] == first[1..] + last;
    }
  }

  lemma RunOne(c: Client, e: Event)
    requires Step(c, e).Ran?
    ensures Run(c, [e]) == Step(c, e)
  {
    hide Step;
    assert Run(Step(c, e).client, []) == Ran(Step(c, e).client);
  }

  /** Whatever happened before, with connects succeeding, a tick that reads an
      answer finishes the oldest unfinished request, and it succeeds. */
  lemma RunSucceeds(c: Client, before: seq<Event>, delta: real, env: Env)
    requires Inv(c) && ConnectsSucceed(before)
    requires Run(c, before).Ran? ==> ReadsAnswer(Run(c, before).client, delta, env)
    ensures Run(c, before).Ran?
    ensures var (now, o) := (Run(c, before).client, Run(c, before + [Tick(delta, env)]));
            && |now.log| < |now.enqueued| && o.Ran? && |o.client.log| == |now.log| + 1 && now.log <= o.client.log
            && var done := o.client.log[|now.log|];
               && done.Succeeded? && done.response == env.parsed.value
               && SameRequest(done.request, now.enqueued[|now.log|])
  {
    hide Run, Process, ReadsAnswer, ConnectsSucceed;
    RunSafe(c, before);
    var now := Run(c, before).client;
    assert Polls(now, delta, env) by { AnswerIsPolled(now, delta, env); }
    AnswerSucceeds(now, delta, env);
    RunThen(c, before, [Tick(delta, env)]);
    RunOne(now, Tick(delta, env));
  }

  lemma AnswerIsPolled(c: Client, delta: real, env: Env)
    requires ReadsAnswer(c, delta, env)
    ensures Polls(c, delta, env)
  {
  }

  /** Ticks that find the connection in progress, and the time they take. */
  predicate AllInProgress(events: seq<Event>) {
    forall i :: 0 <= i < |events| ==> events[i].Tick? && events[i].delta >= 0.0 && InProgress(events[i].env.polled)
  }

  function Elapsed(events: seq<Event>): real {
    if events == [] then 0.0 else (if events[0].Tick? then events[0].delta else 0.0) + Elapsed(events[1..])
  }

  lemma {:induction false} ElapsedNonneg(events: seq<Event>)
    requires AllInProgress(events)
    ensures Elapsed(events) >= 0.0
  {
    if events != [] {
      ElapsedNonneg(events[1..]);
    }
  }

  /** Waiting within the timeout only takes time off the front request. */
  lemma {:induction false} WaitsInProgress(c: Client, events: seq<Event>)
    requires c.queue != [] && c.status != Disconnected && AllInProgress(events)
    requires Elapsed(events) <= c.queue[0].timeout
    ensures var o := Run(c, events);
            && o.Ran? && o.client.status != Disconnected
            && o.client.queue == [c.queue[0].(timeout := c.queue[0].timeout - Elapsed(events))] + c.queue[1..]
            && o.client == c.(queue := o.client.queue, status := o.client.status)
    decreases events
  {
    hide Process;
    if events == [] {
      assert c.queue == [c.queue[0]] + c.queue[1..];
    } else {
      ElapsedNonneg(events[1..]);
      InProgressGoesOn(c, events[0].delta, events[0].env);
      WaitsInProgress(Step(c, events[0]).client, events[1..]);
    }
  }

  /** A request comes through: enqueued on an idle client that then connects and
      sends it, waited for within its timeout, and answered, it succeeds with that
      answer, and the client is idle again. */
  lemma RequestComesThrough(c: Client, r: NewRequest, connecting: Event, waits: seq<Event>, delta: real, env: Env)
    requires Completed(c) && connecting.Tick? && AllInProgress(waits)
    requires connecting.env.connect.Done? && connecting.env.connect.status != Disconnected
    requires connecting.env.polled == Connected
    requires connecting.env.send.Done? && connecting.env.send.status != Disconnected
    requires delta >= 0.0 && Elapsed(waits) + delta <= r.timeout && env.callback == []
    requires env.polled == Body && env.afterBody != Body && env.parsed.Some?
    requires c.skipId || env.parsed.value.id == Some(r.id)
    ensures var o := Run(c, [Enqueue(r)] + ([connecting] + (waits + [Tick(delta, env)])));
            && o.Ran? && Completed(o.client) && |o.client.log| == |c.log| + 1 && c.log <= o.client.log
            && var done := o.client.log[|c.log|];
               done.Succeeded? && done.response == env.parsed.value && done.called == r.hasCallback
  {
    hide Process, PushAll;
    var queued := QueuedAs(r, |c.enqueued|, c.skipId);
    var c1 := Push(c, r);
    SentGoesOn(c1, connecting.delta, connecting.env);
    var c2 := Step(c1, connecting).client;
    assert c2.queue == [queued];
    WaitsInProgress(c2, waits);
    var c3 := Run(c2, waits).client;
    AnswerSucceeds(c3, delta, env);
    var last := [Tick(delta, env)];
    RunOne(c3, Tick(delta, env));
    RunThen(c2, waits, last);
    RunOne(c1, connecting);
    RunThen(c1, [connecting], waits + last);
    RunOne(c, Enqueue(r));
    RunThen(c, [Enqueue(r)], [connecting] + (waits + last));
  }
}
