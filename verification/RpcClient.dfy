/** The RPC client object: methods that push, edit and pop its request queue.
    The environment of a tick is passed in; a callback is the requests it
    enqueues. `enqueued` and `log` are the history the properties speak of and
    are read by no method but to number requests. */
module RpcClients {
  import opened Options
  import opened RpcModel
  import opened RpcSafety

  class RpcSingleHttpRequestClient {
    var queue: seq<Request>
    var status: Status
    var skipId: bool

    var enqueued: seq<Request>
    var log: seq<Completion>

    ghost function Abs(): Client
      reads this
    {
      Client(queue, status, skipId, enqueued, log)
    }

    constructor ()
      ensures Abs() == Initial()
    {
      queue, status, skipId, enqueued, log := [], Disconnected, false, [], [];
    }

    predicate IsCompleted()
      reads this
      ensures IsCompleted() == Completed(Abs())
    {
      status == Disconnected && queue == []
    }

    method SetSkipId(b: bool)
      modifies this
      ensures Step(old(Abs()), Event.SetSkipId(b)) == Ran(Abs())
    {
      skipId := b;
    }

    /** `asynchronous_request`. */
    method AsynchronousRequest(r: NewRequest)
      modifies this
      ensures Step(old(Abs()), Enqueue(r)) == Ran(Abs())
    {
      var data: Request;
      if skipId {
        data := Request(|enqueued|, r.timeout, 0, r.hasCallback, r.hasErrorCallback);
      } else {
        data := Request(|enqueued|, r.timeout, r.id, r.hasCallback, r.hasErrorCallback);
      }
      queue := queue + [data];
      enqueued := enqueued + [data];
    }

    /** A callback that enqueues the given requests. */
    method Call(reentrant: seq<NewRequest>)
      modifies this
      ensures Abs() == PushAll(old(Abs()), reentrant)
    {
      var i := 0;
      assert reentrant[0..] == reentrant;
      while i < |reentrant|
        invariant 0 <= i <= |reentrant|
        invariant PushAll(Abs(), reentrant[i..]) == PushAll(old(Abs()), reentrant)
      {
        AsynchronousRequest(reentrant[i]);
        assert reentrant[i..][1..] == reentrant[i + 1..];
        i := i + 1;
      }
    }

    method FinalizeFaulty(error: Error, reentrant: seq<NewRequest>)
      requires queue != []
      modifies this
      ensures RpcModel.FinalizeFaulty(old(Abs()), error, reentrant) == Ran(Abs())
    {
      hide PushAll;
      status := Disconnected;
      var front := queue[0];
      if front.hasErrorCallback {
        QueueGrows(Abs(), reentrant);
        Call(reentrant);
      }
      queue := queue[1..];
      log := log + [Failed(front, error, front.hasErrorCallback)];
    }

    method FinalizeRequest(response: Response, reentrant: seq<NewRequest>)
      requires queue != []
      modifies this
      ensures RpcModel.FinalizeRequest(old(Abs()), response, reentrant) == Ran(Abs())
    {
      hide PushAll;
      status := Disconnected;
      var front, idSkipped := queue[0], skipId;
      if front.hasCallback {
        QueueGrows(Abs(), reentrant);
        Call(reentrant);
      }
      queue := queue[1..];
      log := log + [Succeeded(front, response, front.hasCallback, idSkipped)];
    }

    method ProcessMessageSending(env: Env, reentrant: seq<NewRequest>)
      requires RpcModel.ProcessMessageSending(Abs(), env, reentrant).Ran?
      modifies this
      ensures RpcModel.ProcessMessageSending(old(Abs()), env, reentrant) == Ran(Abs())
    {
      match env.send
      case Done(next) => status := next;
      case Refused(code) => FinalizeFaulty(SendFailed(code), reentrant);
    }

    method ProcessBody(env: Env, reentrant: seq<NewRequest>)
      requires RpcModel.ProcessBody(Abs(), env, reentrant).Ran?
      modifies this
      ensures RpcModel.ProcessBody(old(Abs()), env, reentrant) == Ran(Abs())
    {
      status := env.afterBody;
      if status == Body {
        return;
      }
      if env.parsed.None? {
        FinalizeFaulty(ParseError, reentrant);
        return;
      }
      if !skipId && !IsOwn(env.parsed.value, queue[0]) {
        return;
      }
      FinalizeRequest(env.parsed.value, reentrant);
    }

    /** The switch at the end of `process`. */
    method Dispatch(env: Env, reentrant: seq<NewRequest>)
      requires RpcModel.Dispatch(Abs(), env, reentrant).Ran?
      modifies this
      ensures RpcModel.Dispatch(old(Abs()), env, reentrant) == Ran(Abs())
    {
      match status
      case Connecting => return;
      case Resolving => return;
      case Requesting => return;
      case Connected => ProcessMessageSending(env, reentrant);
      case Body => ProcessBody(env, reentrant);
      case _ => FinalizeFaulty(NoConnection, reentrant);
    }

    /** `process`; nothing is promised where it would read an empty queue. */
    method Process(delta: real, env: Env)
      requires RpcModel.Process(Abs(), delta, env).Ran?
      modifies this
      ensures RpcModel.Process(old(Abs()), delta, env) == Ran(Abs())
    {
      hide RpcModel.Dispatch;
      var reentrant := env.callback;
      if IsCompleted() {
        return;
      }
      if status == Disconnected {
        match env.connect {
          case Done(next) => status := next;
          case Refused(code) =>
            FinalizeFaulty(ConnectFailed(code), env.callback);
            reentrant := env.nextCallback;
        }
      } else {
        queue := queue[0 := queue[0].(timeout := queue[0].timeout - delta)];
        assert Abs() == UpdateTimeouts(old(Abs()), delta);
        if queue[0].timeout < 0.0 {
          FinalizeFaulty(Timeout, env.callback);
          return;
        }
      }
      if status != Disconnected {
        status := env.polled;
      }
      Dispatch(env, reentrant);
    }
  }

  lemma {:induction false} QueueGrows(c: Client, rs: seq<NewRequest>)
    ensures c.queue <= PushAll(c, rs).queue
    decreases rs
  {
    if rs != [] {
      QueueGrows(Push(c, rs[0]), rs[1..]);
    }
  }

  /** On a client that keeps the invariant, ticking is safe whenever connecting is not refused. */
  method SafeTick(client: RpcSingleHttpRequestClient, delta: real, env: Env)
    requires Inv(client.Abs()) && !ConnectRefused(client.Abs(), env)
    modifies client
    ensures Inv(client.Abs()) && RpcModel.Process(old(client.Abs()), delta, env) == Ran(client.Abs())
    ensures old(client.log) <= client.log && |client.log| <= |old(client.log)| + 1
  {
    hide RpcModel.Process, Inv;
    TickKeeps(client.Abs(), delta, env);
    client.Process(delta, env);
  }
}
