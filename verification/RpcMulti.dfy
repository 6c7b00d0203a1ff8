/** The multi client: a list of single clients, each with one request, processed
    by a loop that removes completed clients while it runs. */
module RpcMulti {
  import opened Words
  import opened Options
  import opened RpcModel
  import opened RpcSafety
  import opened RpcClients

  /** What happens during the tick of one client: its environment, and the
      requests its callbacks make of the multi client. */
  datatype Moment = Moment(env: Env, made: seq<NewRequest>)

  /** Once the script of moments is used up nothing happens any more. */
  const QUIET := Moment(Env(Done(Requesting), Requesting, Done(Requesting), Body, None, [], []), [])

  function First(script: seq<Moment>): Moment {
    if script == [] then QUIET else script[0]
  }

  function Rest(script: seq<Moment>): seq<Moment> {
    if script == [] then [] else script[1..]
  }

  function TotalMade(script: seq<Moment>): nat {
    if script == [] then 0 else |script[0].made| + TotalMade(script[1..])
  }

  /** The clients that requests create, in order. */
  function Created(rs: seq<NewRequest>): (cs: seq<Client>)
    ensures |cs| == |rs| && forall i :: 0 <= i < |rs| ==> cs[i] == Push(Initial(), rs[i])
  {
    seq(|rs|, i requires 0 <= i < |rs| => Push(Initial(), rs[i]))
  }

  function Ticked(c: Client, delta: real, env: Env): Client {
    match Process(c, delta, env)
    case Ran(c') => c'
    case ReadEmptyFront => c
  }

  /** The clients the loop comes to, in order, when it starts with `todo`. */
  function Arrivals(todo: seq<Client>, script: seq<Moment>): seq<Client>
    decreases |todo| + TotalMade(script)
  {
    if todo == [] then []
    else [todo[0]] + Arrivals(todo[1..] + Created(First(script).made), Rest(script))
  }

  /** The clients the loop leaves in the list. */
  function Kept(todo: seq<Client>, delta: real, script: seq<Moment>): seq<Client>
    decreases |todo| + TotalMade(script)
  {
    if todo == [] then []
    else
      var c := Ticked(todo[0], delta, First(script).env);
      (if Completed(c) then [] else [c]) + Kept(todo[1..] + Created(First(script).made), delta, Rest(script))
  }

  // What the loop comes to, and what it leaves

  /** The requests made in the first n moments. */
  function MadeBy(script: seq<Moment>, n: nat): seq<NewRequest>
    requires n <= |script|
  {
    if n == 0 then [] else script[0].made + MadeBy(script[1..], n - 1)
  }

  /** The loop comes to every client that was in the list and to every client
      that is appended meanwhile, each once and in order. */
  lemma {:induction false} ArrivesOnceAtEach(todo: seq<Client>, script: seq<Moment>)
    ensures var n := |Arrivals(todo, script)|;
            Arrivals(todo, script) == todo + Created(MadeBy(script, if n < |script| then n else |script|))
    decreases |todo| + TotalMade(script)
  {
    if todo == [] {
      assert Created([]) == [];
    } else {
      var made := First(script).made;
      ArrivesOnceAtEach(todo[1..] + Created(made), Rest(script));
      hide TotalMade, MadeBy;
      var n := |Arrivals(todo, script)|;
      if script != [] {
        var m := if n < |script| then n - 1 else |script| - 1;
        MadeByFirst(script, m);
        CreatedConcat(todo, made, MadeBy(script[1..], m));
      } else {
        CreatedConcat(todo, [], MadeBy([], 0));
        assert made == [];
      }
    }
  }

  lemma MadeByFirst(script: seq<Moment>, m: nat)
    requires script != [] && m < |script|
    ensures MadeBy(script, m + 1) == First(script).made + MadeBy(script[1..], m)
  {
  }

  lemma CreatedConcat(todo: seq<Client>, a: seq<NewRequest>, b: seq<NewRequest>)
    requires todo != []
    ensures [todo[0]] + (todo[1..] + Created(a) + Created(b)) == todo + Created(a + b)
    ensures a == [] ==> a + b == b
  {
    hide Push;
    assert Created(a + b) == Created(a) + Created(b);
  }

  /** Every client of a list after its one tick. */
  function TickedAll(cs: seq<Client>, delta: real, script: seq<Moment>): (r: seq<Client>)
    ensures |r| == |cs|
    decreases cs
  {
    if cs == [] then [] else [Ticked(cs[0], delta, First(script).env)] + TickedAll(cs[1..], delta, Rest(script))
  }

  function Uncompleted(cs: seq<Client>): seq<Client> {
    if cs == [] then [] else (if Completed(cs[0]) then [] else [cs[0]]) + Uncompleted(cs[1..])
  }

  /** The list that is left holds exactly the clients that their one tick did
      not complete, in order. */
  lemma {:induction false} KeepsTheUncompleted(todo: seq<Client>, delta: real, script: seq<Moment>)
    ensures Kept(todo, delta, script) == Uncompleted(TickedAll(Arrivals(todo, script), delta, script))
    decreases |todo| + TotalMade(script)
  {
    if todo != [] {
      KeepsTheUncompleted(todo[1..] + Created(First(script).made), delta, Rest(script));
      assert Arrivals(todo, script)[1..] == Arrivals(todo[1..] + Created(First(script).made), Rest(script));
    }
  }

  ghost function AbsAll(cs: seq<RpcSingleHttpRequestClient>): (r: seq<Client>)
    reads cs
    ensures |r| == |cs| && forall i :: 0 <= i < |cs| ==> r[i] == cs[i].Abs()
  {
    seq(|cs|, i requires 0 <= i < |cs| reads cs => cs[i].Abs())
  }

  predicate ScriptConnects(script: seq<Moment>) {
    forall i :: 0 <= i < |script| ==> script[i].env.connect.Done?
  }

  class RpcMultiHttpRequestClient {
    var requests: seq<RpcSingleHttpRequestClient>
    var lastProcessedFrame: u32

    ghost predicate Valid()
      reads this, requests
    {
      && (forall i, j :: 0 <= i < j < |requests| ==> requests[i] != requests[j])
      && forall i :: 0 <= i < |requests| ==> Inv(requests[i].Abs())
    }

    constructor ()
      ensures Valid() && requests == [] && lastProcessedFrame == 0
    {
      requests, lastProcessedFrame := [], 0;
    }

    /** `asynchronous_request`: a client of its own for the request. */
    method AsynchronousRequest(r: NewRequest)
      modifies this
      ensures |requests| == |old(requests)| + 1 && requests[..|old(requests)|] == old(requests)
      ensures fresh(requests[|old(requests)|]) && requests[|old(requests)|].Abs() == Push(Initial(), r)
      ensures lastProcessedFrame == old(lastProcessedFrame)
    {
      var client := new RpcSingleHttpRequestClient();
      requests := requests + [client];
      client.AsynchronousRequest(r);
    }

    /** The requests that callbacks make during one tick. */
    method MakeRequests(made: seq<NewRequest>)
      requires Valid()
      modifies this
      ensures Valid() && lastProcessedFrame == old(lastProcessedFrame)
      ensures |requests| == |old(requests)| + |made| && requests[..|old(requests)|] == old(requests)
      ensures forall j :: |old(requests)| <= j < |requests| ==>
                fresh(requests[j]) && requests[j].Abs() == Push(Initial(), made[j - |old(requests)|])
    {
      hide Inv, Push;
      var k := 0;
      while k < |made|
        invariant 0 <= k <= |made|
        invariant Valid() && lastProcessedFrame == old(lastProcessedFrame)
        invariant |requests| == |old(requests)| + k && requests[..|old(requests)|] == old(requests)
        invariant forall j :: |old(requests)| <= j < |requests| ==>
                    fresh(requests[j]) && requests[j].Abs() == Push(Initial(), made[j - |old(requests)|])
      {
        CreatedInv(made[k]);
        AsynchronousRequest(made[k]);
        k := k + 1;
      }
    }

    /** Client i ticks; its callbacks append. */
    method TickAt(i: nat, delta: real, moment: Moment)
      requires Valid() && i < |requests| && moment.env.connect.Done?
      modifies this, requests[i]
      ensures Valid() && lastProcessedFrame == old(lastProcessedFrame)
      ensures |requests| == |old(requests)| + |moment.made| && requests[..|old(requests)|] == old(requests)
      ensures forall j :: |old(requests)| <= j < |requests| ==> fresh(requests[j])
      ensures AbsAll(requests)
           == old(AbsAll(requests))[i := Ticked(old(requests[i].Abs()), delta, moment.env)] + Created(moment.made)
    {
      hide Inv, Push, RpcModel.Process, Ticked;
      var single := requests[i];
      InvNotRefused(single.Abs(), moment.env);
      SafeTick(single, delta, moment.env);
      TickedIs(old(single.Abs()), delta, moment.env, single.Abs());
      assert forall j :: 0 <= j < |requests| && j != i ==> requests[j].Abs() == old(requests[j].Abs());
      label ticked:
      MakeRequests(moment.made);
      assert forall j :: 0 <= j < |old(requests)| ==>
          requests[j] == old(requests[j]) && requests[j].Abs() == old@ticked(requests[j].Abs());
    }

    /** One turn of the loop: a client that its tick completed is taken out and
        the unsigned index steps back, below zero if need be, and forth again. */
    method Turn(i: u32, delta: real, moment: Moment) returns (next: u32)
      requires Valid() && i < |requests| && moment.env.connect.Done?
      requires |requests| + |moment.made| < 0x1_0000_0000
      modifies this, requests[i]
      ensures Valid() && lastProcessedFrame == old(lastProcessedFrame)
      ensures forall c :: c in requests ==> c in old(requests) || fresh(c)
      ensures next <= |requests|
      ensures var (all, c) := (old(AbsAll(requests)), Ticked(old(requests[i].Abs()), delta, moment.env));
              && |requests| == |all| + |moment.made| - (if Completed(c) then 1 else 0)
              && next == (if Completed(c) then i else i + 1)
              && AbsAll(requests)[..next] == all[..i] + (if Completed(c) then [] else [c])
              && AbsAll(requests)[next..] == all[i + 1..] + Created(moment.made)
    {
      hide Valid, AbsAll, Ticked, Created, Wrap32;
      ghost var all := AbsAll(requests);
      ghost var c := Ticked(requests[i].Abs(), delta, moment.env);
      IndexWraps(i);
      TickAt(i, delta, moment);
      TickSlices(all, i, c, Created(moment.made));
      next := i;
      if requests[i].IsCompleted() {
        PopAt(i);
        next := Wrap32(next - 1);
      }
      next := Wrap32(next + 1);
    }

    /** `requests.pop_at(i)`. */
    method PopAt(i: nat)
      requires Valid() && i < |requests|
      modifies this
      ensures Valid() && lastProcessedFrame == old(lastProcessedFrame)
      ensures requests == old(requests)[..i] + old(requests)[i + 1..]
      ensures AbsAll(requests) == old(AbsAll(requests))[..i] + old(AbsAll(requests))[i + 1..]
    {
      hide Inv;
      requests := requests[..i] + requests[i + 1..];
    }

    /** The loop of `process`. */
    method ProcessList(delta: real, script: seq<Moment>)
      requires Valid() && ScriptConnects(script)
      requires |requests| + TotalMade(script) < 0x1_0000_0000
      modifies this, requests
      ensures Valid() && lastProcessedFrame == old(lastProcessedFrame)
      ensures AbsAll(requests) == Kept(old(AbsAll(requests)), delta, script)
    {
      hide Valid, AbsAll, Kept, TotalMade, ScriptConnects, Created, Ticked;
      var rest := script;
      var i: u32 := 0;
      while i < |requests|
        invariant Valid() && lastProcessedFrame == old(lastProcessedFrame)
        invariant 0 <= i <= |requests| && |requests| + TotalMade(rest) < 0x1_0000_0000
        invariant ScriptConnects(rest)
        invariant forall c :: c in requests ==> c in old(requests) || fresh(c)
        invariant AbsAll(requests)[..i] + Kept(AbsAll(requests)[i..], delta, rest)
               == Kept(old(AbsAll(requests)), delta, script)
        decreases |requests| - i + TotalMade(rest)
      {
        assert requests[i] in requests;
        ghost var (all, before) := (AbsAll(requests), i);
        RestShrinks(rest);
        i := Turn(i, delta, First(rest));
        TurnKeeps(all, before, AbsAll(requests), i, delta, rest);
        rest := Rest(rest);
      }
      KeptNothing(delta, rest);
      assert AbsAll(requests)[..i] == AbsAll(requests) && AbsAll(requests)[i..] == [];
    }

    /** `process`: at most once a frame, every client ticks, and the completed
        ones are taken out. */
    method Process(delta: real, currentFrame: u32, script: seq<Moment>)
      requires Valid() && ScriptConnects(script)
      requires |requests| + TotalMade(script) < 0x1_0000_0000
      modifies this, requests
      ensures Valid() && lastProcessedFrame == currentFrame
      ensures currentFrame == old(lastProcessedFrame) ==>
                requests == old(requests) && AbsAll(requests) == old(AbsAll(requests))
      ensures currentFrame != old(lastProcessedFrame) ==>
                AbsAll(requests) == Kept(old(AbsAll(requests)), delta, script)
    {
      if currentFrame != lastProcessedFrame {
        lastProcessedFrame := currentFrame;
        ProcessList(delta, script);
      }
    }
  }

  lemma TickedIs(c: Client, delta: real, env: Env, c': Client)
    requires RpcModel.Process(c, delta, env) == Ran(c')
    ensures Ticked(c, delta, env) == c'
  {
  }

  lemma InvNotRefused(c: Client, env: Env)
    requires env.connect.Done?
    ensures !ConnectRefused(c, env)
  {
  }

  lemma CreatedInv(r: NewRequest)
    ensures Inv(Push(Initial(), r))
  {
  }

  lemma KeptNothing(delta: real, script: seq<Moment>)
    ensures Kept([], delta, script) == []
  {
  }

  lemma RestShrinks(script: seq<Moment>)
    ensures TotalMade(script) == |First(script).made| + TotalMade(Rest(script))
    ensures ScriptConnects(script) ==> First(script).env.connect.Done? && ScriptConnects(Rest(script))
  {
  }

  /** The unsigned index may go below zero: stepping forth again undoes it. */
  lemma IndexWraps(i: u32)
    ensures Wrap32(Wrap32(i - 1) + 1) == i
    ensures i + 1 < 0x1_0000_0000 ==> Wrap32(i + 1) == i + 1
  {
  }

  lemma TickSlices(all: seq<Client>, i: nat, c: Client, made: seq<Client>)
    requires i < |all|
    ensures var ticked := all[i := c] + made;
            && ticked[..i + 1] == all[..i] + [c] && ticked[i + 1..] == all[i + 1..] + made
            && (ticked[..i] + ticked[i + 1..])[..i] == all[..i] + []
            && (ticked[..i] + ticked[i + 1..])[i..] == all[i + 1..] + made
  {
  }

  lemma TurnKeeps(all: seq<Client>, i: nat, all': seq<Client>, next: nat, delta: real, script: seq<Moment>)
    requires i < |all| && next <= |all'|
    requires var c := Ticked(all[i], delta, First(script).env);
             all'[..next] == all[..i] + (if Completed(c) then [] else [c])
    requires all'[next..] == all[i + 1..] + Created(First(script).made)
    ensures all'[..next] + Kept(all'[next..], delta, Rest(script)) == all[..i] + Kept(all[i..], delta, script)
  {
    hide Kept, Ticked, Created, Completed;
    KeptStep(all, i, delta, script);
  }

  /** One turn of the loop, on the clients from index i on. */
  lemma KeptStep(all: seq<Client>, i: nat, delta: real, script: seq<Moment>)
    requires i < |all|
    ensures var c := Ticked(all[i], delta, First(script).env);
            Kept(all[i..], delta, script)
            == (if Completed(c) then [] else [c])
               + Kept(all[i + 1..] + Created(First(script).made), delta, Rest(script))
  {
    assert all[i..][1..] == all[i + 1..];
  }
}
