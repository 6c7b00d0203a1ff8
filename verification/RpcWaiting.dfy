/** Bounded waiting: a request that has been waited for longer than its timeout
    has left the queue. */
module RpcWaiting {
  import opened RpcModel
  import opened RpcSafety

  predicate Queued(c: Client, serial: nat) {
    |c.log| <= serial < |c.log| + |c.queue|
  }

  predicate Finished(c: Client, serial: nat) {
    serial < |c.log|
  }

  function TimeLeft(c: Client, serial: nat): real
    requires Queued(c, serial)
  {
    c.queue[serial - |c.log|].timeout
  }

  /** A tick that finds the client pending with the given request at the front. */
  predicate WaitsFor(c: Client, e: Event, serial: nat) {
    e.Tick? && c.status != Disconnected && serial == |c.log| && c.queue != []
  }

  /** The sum of the deltas of such ticks over a run, and their number. */
  function Waited(c: Client, events: seq<Event>, serial: nat): (w: (real, nat))
    ensures w.1 == 0 ==> w.0 == 0.0
    decreases events
  {
    if events == [] then (0.0, 0)
    else match Step(c, events[0])
         case ReadEmptyFront => (0.0, 0)
         case Ran(c') =>
           var (sum, ticks) := Waited(c', events[1..], serial);
           if WaitsFor(c, events[0], serial) then (events[0].delta + sum, ticks + 1) else (sum, ticks)
  }

  /** One event takes exactly the waited time off the time a queued request has
      left, and a request left waiting by a tick has time left. */
  lemma StepWaits(c: Client, e: Event, serial: nat)
    requires Inv(c) && Queued(c, serial) && (e.Tick? ==> e.env.connect.Done?)
    ensures Step(c, e).Ran?
    ensures var c' := Step(c, e).client;
            || Finished(c', serial)
            || (Queued(c', serial)
                && if WaitsFor(c, e, serial)
                   then TimeLeft(c', serial) == TimeLeft(c, serial) - e.delta && TimeLeft(c', serial) >= 0.0
                   else TimeLeft(c', serial) == TimeLeft(c, serial))
  {
    hide Process, Inv;
    match e
    case Enqueue(r) => PushKeeps(c, r);
    case SetSkipId(b) =>
    case Tick(delta, env) => TickKeeps(c, delta, env);
  }

  /** Over a run the same holds of the sum, provided some tick waited at all. */
  lemma {:induction false} RunWaits(c: Client, events: seq<Event>, serial: nat)
    requires Inv(c) && Queued(c, serial) && ConnectsSucceed(events)
    ensures Run(c, events).Ran?
    ensures var (c', w) := (Run(c, events).client, Waited(c, events, serial));
            || Finished(c', serial)
            || (Queued(c', serial) && TimeLeft(c', serial) == TimeLeft(c, serial) - w.0
                && (w.1 > 0 ==> TimeLeft(c', serial) >= 0.0))
    decreases events
  {
    hide Inv, Step;
    if events != [] {
      StepWaits(c, events[0], serial);
      StepKeeps(c, events[0]);
      var c' := Step(c, events[0]).client;
      RunSafe(c', events[1..]);
      if Queued(c', serial) {
        RunWaits(c', events[1..], serial);
      }
    }
  }

  /** Bounded waiting: once the deltas of the ticks that found the client pending
      with this request at the front add up to more than its timeout, the request
      is finished, whatever statuses and responses the environment produced. */
  lemma BoundedWaiting(c: Client, events: seq<Event>, serial: nat)
    requires Inv(c) && Queued(c, serial) && ConnectsSucceed(events)
    requires Waited(c, events, serial).1 > 0 && Waited(c, events, serial).0 > TimeLeft(c, serial)
    ensures Run(c, events).Ran? && Finished(Run(c, events).client, serial)
  {
    RunWaits(c, events, serial);
  }

  /** A request's time starts at the timeout it was enqueued with. */
  lemma EnqueuedTime(c: Client, r: NewRequest)
    requires Inv(c)
    ensures Queued(Push(c, r), |c.enqueued|) && TimeLeft(Push(c, r), |c.enqueued|) == r.timeout
  {
  }

  /** From the moment a request is enqueued, waiting for it is bounded by the
      timeout it was enqueued with. */
  lemma BoundedWaitingFromEnqueue(c: Client, r: NewRequest, events: seq<Event>)
    requires Inv(c) && ConnectsSucceed(events)
    requires var w := Waited(Push(c, r), events, |c.enqueued|);
             w.1 > 0 && w.0 > r.timeout
    ensures var o := Run(c, [Enqueue(r)] + events);
            o.Ran? && Finished(o.client, |c.enqueued|)
  {
    hide Inv, Push, Waited, ConnectsSucceed;
    PushKeeps(c, r);
    EnqueuedTime(c, r);
    BoundedWaiting(Push(c, r), events, |c.enqueued|);
    assert ([Enqueue(r)] + events)[1..] == events;
  }
}
