/**
 * The gRPC ingress: any number of RPC handlers hand their interaction over an unbuffered channel to one publishing
 * loop and poll for the status it writes.
 */
module GrpcIngress {
  import opened JsStrings

  type RpcId = nat

  /** `convertible`: the message marshals to JSON; `role`: the name of its receiver's role, if that is present. */
  datatype Message = Message(
    convertible: bool, semanticProtocol: string, role: Option<string>, msgType: string, payload: string)
  {
    predicate Addressed() {
      role.Some?
    }

    function RoutingKey(exchange: string): string
      requires Addressed()
    {
      exchange + "." + semanticProtocol + "." + role.value + "." + msgType
    }
  }

  datatype Publication = Publication(rpc: RpcId, routingKey: string, payload: string)

  const ACK := 200

  const NACK := 500

  // ---------------------------------------------------------------- objects

  /** Interaction: the status is nil until the publisher acknowledges. */
  class Interaction {
    const msg: Message
    var status: Option<nat>

    constructor (msg: Message)
      ensures this.msg == msg && status == None
    {
      this.msg := msg;
      status := None;
    }

    method Ack()
      modifies this
      ensures status == Some(200)
    {
      status := Some(ACK);
    }

    method Nack()
      modifies this
      ensures status == Some(500)
    {
      status := Some(NACK);
    }

    /** The end of a round of the consumer loop, by the error that publishing returned. */
    method Answer(err: bool)
      modifies this
      ensures status == Some(if err then 500 else 200)
    {
      if err {
        Nack();
      } else {
        Ack();
      }
    }
  }

  /** What the environment does at one attempt to publish. */
  datatype Attempt = Attempt(connClosed: bool, publishFails: bool)

  /** An attempt publishes unless the open connection turns out closed or the broker refuses. */
  predicate Succeeds(channel: bool, a: Attempt) {
    !(channel && a.connClosed) && !a.publishFails
  }

  /** Whether one of the attempts publishes; only the first can find the channel missing, and then opens it. */
  predicate Publishes(channel: bool, env: seq<Attempt>)
    decreases |env|
  {
    env != [] && (Succeeds(channel, env[0]) || Publishes(true, env[1..]))
  }

  /** AMQPClient, as far as publishing goes. */
  class AmqpClient {
    var channel: bool
    var backoff: nat
    var published: seq<Publication>

    constructor ()
      ensures !channel && backoff == 0 && published == []
    {
      channel, backoff, published := false, 0, [];
    }

    /**
     * `Publish` against an environment given attempt by attempt: it retries until one succeeds, publishes exactly
     * once and then returns nil. `returned` is false when the attempts run out first.
     */
    method Publish(p: Publication, env: seq<Attempt>) returns (returned: bool, err: bool)
      modifies this
      ensures returned <==> Publishes(old(channel), env)
      ensures returned ==> !err && published == old(published) + [p] && backoff == 0 && channel
      ensures !returned ==> published == old(published) && backoff == old(backoff) + |env|
      ensures !returned ==> channel == (old(channel) || env != [])
      decreases env
    {
      if env == [] {
        return false, false;
      }
      if !channel {
        channel := true;
      } else if env[0].connClosed {
        backoff := backoff + 1;
        returned, err := Publish(p, env[1..]);
        return;
      }
      if env[0].publishFails {
        backoff := backoff + 1;
        returned, err := Publish(p, env[1..]);
        return;
      }
      published := published + [p];
      backoff := 0;
      returned, err := true, false;
    }
  }

  // ---------------------------------------------------------------- the system

  datatype Phase = Sending | Waiting | Returned(code: nat)

  /** One `SendInteractionMessage` call; `writes` counts the assignments to its status. */
  datatype Rpc = Rpc(msg: Message, phase: Phase, status: Option<nat>, writes: nat)

  datatype Loop = Idle | Publishing(rpc: RpcId) | Published(rpc: RpcId) | Crashed

  /** `accepted` is the history of interactions the loop went on to publish. */
  datatype System = System(
    exchange: string, rpcs: map<RpcId, Rpc>, loop: Loop, published: seq<Publication>, accepted: seq<RpcId>)

  function Start(exchange: string): System {
    System(exchange, map[], Idle, [], [])
  }

  datatype Step =
    | Arrive(rpc: RpcId, msg: Message)
    | HandOver(rpc: RpcId)
    | TryPublish(ok: bool)
    | Acknowledge
    | Poll(rpc: RpcId)

  predicate Enabled(s: System, step: Step) {
    && s.loop != Crashed
    && match step
       case Arrive(r, _) => r !in s.rpcs
       case HandOver(r) => s.loop == Idle && r in s.rpcs && s.rpcs[r].phase == Sending
       case TryPublish(_) =>
         s.loop.Publishing? && s.loop.rpc in s.rpcs && s.rpcs[s.loop.rpc].msg.Addressed()
       case Acknowledge => s.loop.Published? && s.loop.rpc in s.rpcs
       case Poll(r) => r in s.rpcs && s.rpcs[r].phase == Waiting
  }

  function Do(s: System, step: Step): System
    requires Enabled(s, step)
  {
    match step
    case Arrive(r, msg) => s.(rpcs := s.rpcs[r := Rpc(msg, Sending, None, 0)])
    case HandOver(r) =>
      var rpc := s.rpcs[r];
      var s' := s.(rpcs := s.rpcs[r := rpc.(phase := Waiting)]);
      if !rpc.msg.convertible then s'
      else if !rpc.msg.Addressed() then s'.(loop := Crashed)
      else s'.(loop := Publishing(r), accepted := s.accepted + [r])
    case TryPublish(ok) =>
      var r := s.loop.rpc;
      if !ok then s
      else s.(loop := Published(r),
              published := s.published + [Publication(r, s.rpcs[r].msg.RoutingKey(s.exchange), s.rpcs[r].msg.payload)])
    case Acknowledge =>
      var r := s.loop.rpc;
      s.(rpcs := s.rpcs[r := s.rpcs[r].(status := Some(ACK), writes := s.rpcs[r].writes + 1)], loop := Idle)
    case Poll(r) =>
      var rpc := s.rpcs[r];
      if rpc.status.None? then s else s.(rpcs := s.rpcs[r := rpc.(phase := Returned(rpc.status.value))])
  }

  // ---------------------------------------------------------------- the consumer loop

  datatype Consumed = Skipped | Panicked | StillPublishing | Answered

  /** The system after the loop took over interaction `r` and got as far as `result`. */
  function AfterRound(s: System, r: RpcId, result: Consumed): System
    requires Enabled(s, HandOver(r))
    requires result in {StillPublishing, Answered} ==> s.rpcs[r].msg.convertible && s.rpcs[r].msg.Addressed()
  {
    var s' := Do(s, HandOver(r));
    if result == Answered then Do(Do(s', TryPublish(true)), Acknowledge) else s'
  }

  /**
   * One round of the consumer loop on the interaction object of call `r`: marshal, build the routing key, publish,
   * acknowledge. Object, client and loop end up where the steps of the system take them.
   */
  method Consume(r: RpcId, exchange: string, ia: Interaction, client: AmqpClient, env: seq<Attempt>, ghost s: System)
    returns (result: Consumed)
    requires Enabled(s, HandOver(r)) && s.rpcs[r].msg == ia.msg && s.exchange == exchange
    requires ia.status == s.rpcs[r].status && client.published == s.published
    modifies ia, client
    ensures !ia.msg.convertible <==> result == Skipped
    ensures ia.msg.convertible && !ia.msg.Addressed() <==> result == Panicked
    ensures ia.msg.convertible && ia.msg.Addressed() ==> (result == Answered <==> Publishes(old(client.channel), env))
    ensures var s' := AfterRound(s, r, result);
            && ia.status == s'.rpcs[r].status && client.published == s'.published
            && s'.loop == match result
                          case Panicked => Crashed
                          case StillPublishing => Publishing(r)
                          case _ => Idle
  {
    if !ia.msg.convertible {
      return Skipped;
    }
    if !ia.msg.Addressed() {
      return Panicked;
    }
    var routingKey :=
      exchange + "." + ia.msg.semanticProtocol + "." + ia.msg.role.value + "." + ia.msg.msgType;
    var returned, err := client.Publish(Publication(r, routingKey, ia.msg.payload), env);
    if !returned {
      return StillPublishing;
    }
    ia.Answer(err);
    result := Answered;
  }

  // ---------------------------------------------------------------- invariant

  function Count(published: seq<Publication>, r: RpcId): nat {
    if published == [] then 0
    else (if published[|published| - 1].rpc == r then 1 else 0) + Count(published[..|published| - 1], r)
  }

  function Rpcs(published: seq<Publication>): seq<RpcId> {
    seq(|published|, i requires 0 <= i < |published| => published[i].rpc)
  }

  predicate RpcOk(s: System, r: RpcId)
    requires r in s.rpcs
  {
    var rpc := s.rpcs[r];
    && (rpc.phase == Sending ==> rpc.status == None && s.loop != Publishing(r) && s.loop != Published(r))
    && (rpc.phase.Returned? ==> rpc.status == Some(rpc.phase.code))
    && (rpc.phase == Waiting && rpc.status == None ==>
          !rpc.msg.convertible || s.loop == Publishing(r) || s.loop == Published(r) || s.loop == Crashed)
    && (rpc.status == None ==> rpc.writes == 0 && Count(s.published, r) == (if s.loop == Published(r) then 1 else 0))
    && (rpc.status != None ==>
          && rpc.status == Some(ACK) && rpc.writes == 1 && Count(s.published, r) == 1
          && rpc.msg.convertible && rpc.msg.Addressed() && s.loop != Publishing(r) && s.loop != Published(r))
  }

  predicate LoopOk(s: System) {
    && (s.loop.Publishing? || s.loop.Published? ==>
          s.loop.rpc in s.rpcs && s.rpcs[s.loop.rpc].msg.convertible && s.rpcs[s.loop.rpc].msg.Addressed())
    && s.accepted == Rpcs(s.published) + (if s.loop.Publishing? then [s.loop.rpc] else [])
  }

  predicate PublicationOk(s: System, p: Publication) {
    && p.rpc in s.rpcs && s.rpcs[p.rpc].msg.Addressed()
    && p.routingKey == s.rpcs[p.rpc].msg.RoutingKey(s.exchange) && p.payload == s.rpcs[p.rpc].msg.payload
  }

  ghost predicate Inv(s: System) {
    && LoopOk(s)
    && (forall r :: r in s.rpcs ==> RpcOk(s, r))
    && (forall i :: 0 <= i < |s.published| ==> PublicationOk(s, s.published[i]))
  }

  lemma CountOne(published: seq<Publication>, p: Publication, r: RpcId)
    ensures Count(published + [p], r) == Count(published, r) + (if p.rpc == r then 1 else 0)
  {
    assert (published + [p])[..|published|] == published;
  }

  lemma {:induction false} CountNone(published: seq<Publication>, r: RpcId)
    requires forall i :: 0 <= i < |published| ==> published[i].rpc != r
    ensures Count(published, r) == 0
  {
    if published != [] {
      CountNone(published[..|published| - 1], r);
    }
  }

  /** A step that leaves the publications alone keeps the invariant if it does so for the calls and the loop. */
  lemma QuietKeeps(s: System, s': System)
    requires Inv(s) && LoopOk(s') && s'.published == s.published
    requires s'.exchange == s.exchange
    requires forall r :: r in s.rpcs ==> r in s'.rpcs && s'.rpcs[r].msg == s.rpcs[r].msg
    requires forall r :: r in s'.rpcs ==> RpcOk(s', r)
    ensures Inv(s')
  {
    forall i | 0 <= i < |s'.published|
      ensures PublicationOk(s', s'.published[i])
    {
      assert PublicationOk(s, s.published[i]);
    }
  }

  lemma PublishKeeps(s: System)
    requires Inv(s) && Enabled(s, TryPublish(true))
    ensures Inv(Do(s, TryPublish(true)))
  {
    hide Count;
    var s' := Do(s, TryPublish(true));
    var p := s'.published[|s.published|];
    assert Rpcs(s'.published) == Rpcs(s.published) + [p.rpc];
    forall r | r in s'.rpcs
      ensures RpcOk(s', r)
    {
      assert RpcOk(s, r);
      CountOne(s.published, p, r);
    }
    forall i | 0 <= i < |s'.published|
      ensures PublicationOk(s', s'.published[i])
    {
      if i < |s.published| {
        assert PublicationOk(s, s.published[i]);
      }
    }
  }

  lemma LoopKeeps(s: System, step: Step)
    requires Inv(s) && Enabled(s, step) && step != TryPublish(true)
    ensures LoopOk(Do(s, step)) && Do(s, step).published == s.published && Do(s, step).exchange == s.exchange
    ensures forall r :: r in s.rpcs ==> r in Do(s, step).rpcs && Do(s, step).rpcs[r].msg == s.rpcs[r].msg
  {
    hide Count, PublicationOk, RpcOk, Rpcs;
  }

  lemma ArriveUncounted(s: System, r: RpcId)
    requires Inv(s) && r !in s.rpcs
    ensures Count(s.published, r) == 0
  {
    assert forall i :: 0 <= i < |s.published| ==> PublicationOk(s, s.published[i]);
    CountNone(s.published, r);
  }

  lemma CallKeeps(s: System, step: Step, r: RpcId)
    requires Inv(s) && Enabled(s, step) && step != TryPublish(true) && r in Do(s, step).rpcs
    ensures RpcOk(Do(s, step), r)
  {
    hide Count, PublicationOk, Rpcs;
    if r in s.rpcs {
      assert RpcOk(s, r);
    } else {
      ArriveUncounted(s, r);
    }
    match step
    case Acknowledge => assert RpcOk(s, s.loop.rpc);
    case _ =>
  }

  lemma StepKeeps(s: System, step: Step)
    requires Inv(s) && Enabled(s, step)
    ensures Inv(Do(s, step))
  {
    if step == TryPublish(true) {
      PublishKeeps(s);
    } else {
      hide Count, PublicationOk, Rpcs, RpcOk, LoopOk, Do;
      var s' := Do(s, step);
      LoopKeeps(s, step);
      forall r | r in s'.rpcs
        ensures RpcOk(s', r)
      {
        CallKeeps(s, step, r);
      }
      QuietKeeps(s, s');
    }
  }

  predicate Legal(s: System, steps: seq<Step>)
    decreases |steps|
  {
    steps == [] || (Enabled(s, steps[0]) && Legal(Do(s, steps[0]), steps[1..]))
  }

  function Run(s: System, steps: seq<Step>): System
    requires Legal(s, steps)
    decreases |steps|
  {
    if steps == [] then s else Run(Do(s, steps[0]), steps[1..])
  }

  lemma {:induction false} RunKeeps(s: System, steps: seq<Step>)
    requires Inv(s) && Legal(s, steps)
    ensures Inv(Run(s, steps)) && Run(s, steps).exchange == s.exchange
    decreases |steps|
  {
    if steps != [] {
      StepKeeps(s, steps[0]);
      RunKeeps(Do(s, steps[0]), steps[1..]);
    }
  }

  /** The message of a call is the one it arrived with. */
  lemma {:induction false} MessageStays(s: System, steps: seq<Step>, r: RpcId)
    requires Legal(s, steps) && r in s.rpcs
    ensures r in Run(s, steps).rpcs && Run(s, steps).rpcs[r].msg == s.rpcs[r].msg
    decreases |steps|
  {
    if steps != [] {
      MessageStays(Do(s, steps[0]), steps[1..], r);
    }
  }

  lemma {:induction false} ArrivedMessage(s: System, steps: seq<Step>, j: nat)
    requires Legal(s, steps) && j < |steps| && steps[j].Arrive?
    ensures steps[j].rpc in Run(s, steps).rpcs && Run(s, steps).rpcs[steps[j].rpc].msg == steps[j].msg
    decreases |steps|
  {
    hide Enabled;
    if j > 0 {
      hide Do;
      ArrivedMessage(Do(s, steps[0]), steps[1..], j - 1);
    } else {
      MessageStays(Do(s, steps[0]), steps[1..], steps[0].rpc);
    }
  }

  /**
   * In every interleaving: a call that has returned carries status 200, its status was written once, and exactly one
   * publication is its own, with the payload of the message it arrived with, under the routing key made of the
   * exchange and that message's protocol, receiver role and type.
   */
  lemma ReturnedMeansPublishedOnce(exchange: string, steps: seq<Step>, j: nat)
    requires Legal(Start(exchange), steps) && j < |steps| && steps[j].Arrive?
    ensures steps[j].rpc in Run(Start(exchange), steps).rpcs
    ensures var s, r, msg := Run(Start(exchange), steps), steps[j].rpc, steps[j].msg;
            s.rpcs[r].phase.Returned? ==>
              && s.rpcs[r].phase == Returned(200) && s.rpcs[r].writes == 1 && Count(s.published, r) == 1
              && msg.convertible && msg.role.Some?
              && (forall i :: 0 <= i < |s.published| && s.published[i].rpc == r ==>
                    && s.published[i].payload == msg.payload
                    && s.published[i].routingKey
                       == exchange + "." + msg.semanticProtocol + "." + msg.role.value + "." + msg.msgType)
  {
    RunKeeps(Start(exchange), steps);
    ArrivedMessage(Start(exchange), steps, j);
    var s := Run(Start(exchange), steps);
    assert RpcOk(s, steps[j].rpc);
    forall i | 0 <= i < |s.published|
      ensures PublicationOk(s, s.published[i])
    {
    }
  }

  /** The attempts that reach the broker: not on a connection found closed, and not refused. */
  lemma {:induction false} PublishesIff(channel: bool, env: seq<Attempt>)
    ensures Publishes(channel, env) <==>
              exists k :: 0 <= k < |env| && !env[k].publishFails && !(env[k].connClosed && (channel || k > 0))
    decreases |env|
  {
    if env != [] {
      PublishesIff(true, env[1..]);
      assert forall k :: 0 < k < |env| ==> env[k] == env[1..][k - 1];
      if k :| 0 <= k < |env[1..]| && !env[1..][k].publishFails && !env[1..][k].connClosed {
        assert env[k + 1] == env[1..][k];
      }
    }
  }

  /**
   * No interaction is published twice or without an RPC of its own, and publications leave in the order in which the
   * loop took the interactions over.
   */
  lemma PublishedInOrderOnce(exchange: string, steps: seq<Step>)
    requires Legal(Start(exchange), steps)
    ensures var s := Run(Start(exchange), steps);
            && Rpcs(s.published) <= s.accepted <= Rpcs(s.published) + (if s.loop.Publishing? then [s.loop.rpc] else [])
            && (forall r :: r in s.rpcs ==> Count(s.published, r) <= 1)
  {
    RunKeeps(Start(exchange), steps);
    var s := Run(Start(exchange), steps);
    forall r | r in s.rpcs
      ensures Count(s.published, r) <= 1
    {
      assert RpcOk(s, r);
    }
  }

  /** The steps that answer a waiting call, given that the broker accepts the next attempt. */
  function Answering(s: System, r: RpcId): seq<Step> {
    if s.loop == Publishing(r) then [TryPublish(true), Acknowledge, Poll(r)]
    else if s.loop == Published(r) then [Acknowledge, Poll(r)]
    else [Poll(r)]
  }

  lemma RunOne(s: System, step: Step)
    requires Enabled(s, step)
    ensures Legal(s, [step]) && Run(s, [step]) == Do(s, step)
  {
    hide Do;
    assert [step][1..] == [];
    assert Legal(Do(s, step), []);
  }

  lemma AnsweredAfterAcknowledge(s: System, r: RpcId)
    requires s.loop == Published(r) && r in s.rpcs && s.rpcs[r].phase == Waiting
    ensures Legal(s, [Acknowledge, Poll(r)])
    ensures r in Run(s, [Acknowledge, Poll(r)]).rpcs && Run(s, [Acknowledge, Poll(r)]).rpcs[r].phase == Returned(200)
  {
    var s1 := Do(s, Acknowledge);
    assert [Acknowledge, Poll(r)][1..] == [Poll(r)];
    RunOne(s1, Poll(r));
  }

  lemma AnsweredAfterPublishing(s: System, r: RpcId)
    requires s.loop == Publishing(r) && r in s.rpcs && s.rpcs[r].phase == Waiting && s.rpcs[r].msg.Addressed()
    ensures Legal(s, [TryPublish(true), Acknowledge, Poll(r)])
    ensures var s' := Run(s, [TryPublish(true), Acknowledge, Poll(r)]);
            r in s'.rpcs && s'.rpcs[r].phase == Returned(200)
  {
    assert [TryPublish(true), Acknowledge, Poll(r)][1..] == [Acknowledge, Poll(r)];
    AnsweredAfterAcknowledge(Do(s, TryPublish(true)), r);
  }

  /**
   * Why a handed-over call waits, in every interleaving: as long as the loop is alive, it can be answered next if and
   * only if its message can be marshalled.
   */
  lemma WaitingCanBeAnsweredIff(exchange: string, steps: seq<Step>, r: RpcId)
    requires Legal(Start(exchange), steps) && Run(Start(exchange), steps).loop != Crashed
    requires r in Run(Start(exchange), steps).rpcs && Run(Start(exchange), steps).rpcs[r].phase == Waiting
    ensures var s := Run(Start(exchange), steps);
            && Legal(s, Answering(s, r))
            && var s' := Run(s, Answering(s, r));
               && r in s'.rpcs
               && (s'.rpcs[r].phase == Returned(200) <==> s.rpcs[r].msg.convertible)
  {
    RunKeeps(Start(exchange), steps);
    var s := Run(Start(exchange), steps);
    assert RpcOk(s, r);
    if s.loop == Publishing(r) {
      AnsweredAfterPublishing(s, r);
    } else if s.loop == Published(r) {
      AnsweredAfterAcknowledge(s, r);
    } else {
      RunOne(s, Poll(r));
    }
  }

  /** Some call was handed over whose message marshals but names no receiver role. */
  ghost predicate Unaddressed(s: System) {
    exists r :: r in s.rpcs && s.rpcs[r].phase == Waiting && s.rpcs[r].msg.convertible && s.rpcs[r].msg.role.None?
  }

  lemma CrashStep(s: System, step: Step)
    requires Enabled(s, step)
    ensures Do(s, step).loop == Crashed ==> Unaddressed(Do(s, step))
  {
    if Do(s, step).loop == Crashed {
      assert Do(s, step).rpcs[step.rpc].phase == Waiting;
    }
  }

  lemma {:induction false} CrashRun(s: System, steps: seq<Step>)
    requires Legal(s, steps) && s.loop != Crashed
    ensures Run(s, steps).loop == Crashed ==> Unaddressed(Run(s, steps))
    decreases |steps|
  {
    hide Do, Unaddressed;
    if steps != [] {
      CrashStep(s, steps[0]);
      if Do(s, steps[0]).loop != Crashed {
        CrashRun(Do(s, steps[0]), steps[1..]);
      }
    }
  }

  /** The loop dies exactly of a message that marshals and names no receiver role. */
  lemma CrashedIff(exchange: string, steps: seq<Step>)
    requires Legal(Start(exchange), steps)
    ensures Run(Start(exchange), steps).loop == Crashed <==> Unaddressed(Run(Start(exchange), steps))
  {
    hide Do, Legal, Run, Count;
    RunKeeps(Start(exchange), steps);
    CrashRun(Start(exchange), steps);
    var s := Run(Start(exchange), steps);
    assert forall r :: r in s.rpcs ==> RpcOk(s, r);
  }

  lemma UnmarshallableUnanswered(s: System, r: RpcId)
    requires Inv(s) && r in s.rpcs && !s.rpcs[r].msg.convertible
    ensures s.rpcs[r].status == None && !s.rpcs[r].phase.Returned?
  {
    hide Count, Rpcs, PublicationOk, LoopOk;
    assert RpcOk(s, r);
  }

  lemma UnmarshallableStep(s: System, step: Step, r: RpcId)
    requires Inv(s) && Enabled(s, step) && r in s.rpcs && !s.rpcs[r].msg.convertible
    ensures r in Do(s, step).rpcs && Do(s, step).rpcs[r].msg == s.rpcs[r].msg
    ensures s.rpcs[r].phase == Waiting ==> Do(s, step).rpcs[r].phase == Waiting
  {
    UnmarshallableUnanswered(s, r);
    hide Inv;
  }

  /** A call whose message cannot be marshalled never gets a status: once handed over, it waits in any continuation. */
  lemma {:induction false} UnmarshallableWaitsForever(s: System, steps: seq<Step>, r: RpcId)
    requires Inv(s) && Legal(s, steps) && r in s.rpcs && !s.rpcs[r].msg.convertible
    ensures var s' := Run(s, steps);
            && r in s'.rpcs && s'.rpcs[r].msg == s.rpcs[r].msg
            && s'.rpcs[r].status == None && !s'.rpcs[r].phase.Returned?
            && (s.rpcs[r].phase == Waiting ==> s'.rpcs[r].phase == Waiting)
    decreases |steps|
  {
    hide Inv, Do, Enabled;
    UnmarshallableUnanswered(s, r);
    if steps != [] {
      StepKeeps(s, steps[0]);
      UnmarshallableStep(s, steps[0], r);
      UnmarshallableWaitsForever(Do(s, steps[0]), steps[1..], r);
    }
  }
}
