/** The mbed MQTT client with its QoS 2 branches enabled: one pass of `cycle`, message delivery,
    subscriptions and session clean-up. */
module MbedClient {
  import opened Wrappers
  import opened MqttPackets
  import opened ReturnCodes
  import opened Qos2Ids
  import opened Handlers
  import opened Collections
  import PacketIds
  import Topics

  // ---------- one pass of cycle ----------

  /** `deliveries` lists the messages handed to deliverMessage, oldest first. */
  datatype State = State(ids: seq<nat>, deliveries: seq<Message>, pingOutstanding: bool, keepAliveInterval: nat)

  /** What the environment decides during one pass: whether the reply went out in full, whether a
      keep-alive timer has run out, and whether the ping went out. */
  datatype Env = Env(sendOk: bool, idle: bool, pingOk: bool)

  datatype Outcome = Outcome(state: State, rc: int, sent: seq<Packet>)

  function Deliver(s: State, m: Message): State {
    s.(deliveries := s.deliveries + [m])
  }

  predicate Pings(s: State, env: Env) {
    s.keepAliveInterval > 0 && env.idle && !s.pingOutstanding && env.pingOk
  }

  function Keepalive(o: Outcome, env: Env): Outcome {
    if Pings(o.state, env) then o.(state := o.state.(pingOutstanding := true), sent := o.sent + [Pingreq]) else o
  }

  /** An incoming PUBLISH, up to the reply. */
  function Accept(s: State, m: Message): State {
    if m.qos != 2 then Deliver(s, m)
    else if IsFree(s.ids, m.id) && Use(s.ids, m.id).0 then Deliver(s, m).(ids := Use(s.ids, m.id).1)
    else s
  }

  function Reply(s: State, env: Env, reply: Packet, rc: int, after: State): Outcome {
    if env.sendOk then Keepalive(Outcome(after, rc, [reply]), env) else Outcome(s, FAILURE, [])
  }

  /** The state after one pass of `cycle`, its return code and the packets sent in full. */
  function Cycle(s: State, incoming: Incoming, env: Env): Outcome {
    match incoming
    case Nothing => Keepalive(Outcome(s, FAILURE, []), env)
    case TooLong => Keepalive(Outcome(s, BUFFER_OVERFLOW, []), env)
    case Received(Publish(m)) =>
      var s' := Accept(s, m);
      if m.qos == 0 then Keepalive(Outcome(s', PUBLISH, []), env)
      else if m.qos == 1 then Reply(s', env, Puback(m.id), PUBLISH, s')
      else if m.qos == 2 then Reply(s', env, Pubrec(m.id), PUBLISH, s')
      else Outcome(s', FAILURE, [])
    case Received(Pubrec(id)) => Reply(s, env, Pubrel(id), PUBREC, s)
    case Received(Pubrel(id)) => Reply(s, env, Pubcomp(id), PUBREL, s.(ids := Free(s.ids, id)))
    case Received(Pingresp) => Keepalive(Outcome(s.(pingOutstanding := false), PINGRESP, []), env)
    case Received(Undecodable(t)) =>
      if t == PUBLISH then Outcome(s, PUBLISH, [])
      else if t == PUBREC || t == PUBREL then Outcome(s, FAILURE, [])
      else if t == PINGRESP then Keepalive(Outcome(s.(pingOutstanding := false), PINGRESP, []), env)
      else Keepalive(Outcome(s, t, []), env)
    case Received(p) => Keepalive(Outcome(s, TypeOf(p), []), env)
  }

  /** The switch of `cycle` on a packet read: SUCCESS goes on to the keep-alive check, any other code
      ends the pass with it. */
  function Switch(s: State, p: Packet, env: Env): Outcome {
    match p
    case Publish(m) =>
      var s' := Accept(s, m);
      if m.qos == 0 then Outcome(s', SUCCESS, [])
      else if m.qos > 2 || !env.sendOk then Outcome(s', FAILURE, [])
      else Outcome(s', SUCCESS, [if m.qos == 1 then Puback(m.id) else Pubrec(m.id)])
    case Pubrec(id) => if env.sendOk then Outcome(s, SUCCESS, [Pubrel(id)]) else Outcome(s, FAILURE, [])
    case Pubrel(id) =>
      if env.sendOk then Outcome(s.(ids := Free(s.ids, id)), SUCCESS, [Pubcomp(id)]) else Outcome(s, FAILURE, [])
    case Undecodable(t) =>
      if t == PUBLISH then Outcome(s, PUBLISH, [])
      else if t == PUBREC || t == PUBREL then Outcome(s, FAILURE, [])
      else if t == PINGRESP then Outcome(s.(pingOutstanding := false), SUCCESS, [])
      else Outcome(s, SUCCESS, [])
    case _ => Outcome(if p.Pingresp? then s.(pingOutstanding := false) else s, SUCCESS, [])
  }

  lemma CycleIsSwitch(s: State, p: Packet, env: Env)
    ensures var o := Switch(s, p, env);
      Cycle(s, Received(p), env) == if o.rc != SUCCESS then o else Keepalive(o.(rc := TypeOf(p)), env)
  {
  }

  // ---------- what one pass does, packet by packet ----------

  predicate IsPublish(incoming: Incoming) {
    incoming.Received? && incoming.packet.Publish?
  }

  predicate IsPingresp(incoming: Incoming) {
    incoming.Received? && TypeOf(incoming.packet) == PINGRESP
  }

  predicate NeedsAnswer(p: Packet) {
    p.Pubrec? || p.Pubrel? || (p.Publish? && 1 <= p.message.qos <= 2)
  }

  /** The packet cannot be handled, or its answer does not go out. */
  predicate Fails(p: Packet, env: Env) {
    p == Undecodable(PUBREC) || p == Undecodable(PUBREL) || (p.Publish? && p.message.qos > 2) ||
    (NeedsAnswer(p) && !env.sendOk)
  }

  /** Delivered is the PUBLISH read and nothing else: always, unless its QoS is 2; then if its identifier
      is not stored and a slot is free. */
  predicate PassDelivers(incoming: Incoming, ids: seq<nat>, before: seq<Message>, after: seq<Message>) {
    after == before +
      if IsPublish(incoming) && (incoming.packet.message.qos != 2 || (incoming.packet.message.id !in ids && 0 in ids))
      then [incoming.packet.message] else []
  }

  /** Sent are the answer to the packet read, if it needs one and sending succeeds, and then perhaps a ping. */
  predicate PassAnswers(incoming: Incoming, env: Env, sent: seq<Packet>, pinged: bool) {
    var answers := incoming.Received? && NeedsAnswer(incoming.packet) && env.sendOk;
    |sent| == (if answers then 1 else 0) + (if pinged then 1 else 0) &&
    (answers ==> Answers(incoming.packet, sent[0])) && (pinged ==> sent[|sent| - 1] == Pingreq)
  }

  /** When a ping goes out. */
  predicate PassPings(incoming: Incoming, env: Env, interval: nat, outstanding: bool) {
    interval > 0 && env.idle && env.pingOk && (!outstanding || IsPingresp(incoming)) &&
    (incoming.Received? ==> !Fails(incoming.packet, env) && incoming.packet != Undecodable(PUBLISH))
  }

  predicate PassReturns(incoming: Incoming, env: Env, rc: int) {
    rc == match incoming
      case Nothing => FAILURE
      case TooLong => BUFFER_OVERFLOW
      case Received(p) => if Fails(p, env) then FAILURE else TypeOf(p)
  }

  /** An identifier is stored with the delivery of its publication, freed with its PUBCOMP, and touched
      by nothing else. */
  ghost predicate PassStores(incoming: Incoming, env: Env, before: seq<nat>, after: seq<nat>) {
    Distinct(before) ==>
      Stored(after) ==
        if IsPublish(incoming) && incoming.packet.message.qos == 2 && 0 in before
          then Stored(before) + ({incoming.packet.message.id} - {0})
        else if incoming.Received? && incoming.packet.Pubrel? && env.sendOk then Stored(before) - {incoming.packet.id}
        else Stored(before)
  }

  lemma CycleLaws(s: State, incoming: Incoming, env: Env)
    ensures var o, pinged := Cycle(s, incoming, env), PassPings(incoming, env, s.keepAliveInterval, s.pingOutstanding);
      PassDelivers(incoming, s.ids, s.deliveries, o.state.deliveries) &&
      PassAnswers(incoming, env, o.sent, pinged) &&
      (o.state.pingOutstanding <==> pinged || (s.pingOutstanding && !IsPingresp(incoming))) &&
      o.state.keepAliveInterval == s.keepAliveInterval && PassReturns(incoming, env, o.rc)
  {
    if IsPublish(incoming) { AcceptDelivers(s, incoming.packet.message); }
    if incoming.Received? { CycleIsSwitch(s, incoming.packet, env); }
  }

  lemma AcceptDelivers(s: State, m: Message)
    ensures PassDelivers(Received(Publish(m)), s.ids, s.deliveries, Accept(s, m).deliveries)
    ensures Accept(s, m).pingOutstanding == s.pingOutstanding && Accept(s, m).keepAliveInterval == s.keepAliveInterval
  {
    FreeMeansAbsent(s.ids, m.id);
    FreeMeansAbsent(s.ids, 0);
  }

  lemma CycleStores(s: State, incoming: Incoming, env: Env)
    ensures PassStores(incoming, env, s.ids, Cycle(s, incoming, env).state.ids)
  {
    if IsPublish(incoming) && Distinct(s.ids) && incoming.packet.message.qos == 2 {
      AcceptStores(s, incoming.packet.message);
    }
    if incoming.Received? {
      CycleIsSwitch(s, incoming.packet, env);
      if incoming.packet.Pubrel? && Distinct(s.ids) {
        if incoming.packet.id != 0 {
          FreeRemoves(s.ids, incoming.packet.id);
        } else {
          assert Free(s.ids, 0) == s.ids;
        }
      }
    }
  }

  lemma AcceptStores(s: State, m: Message)
    requires Distinct(s.ids) && m.qos == 2
    ensures Stored(Accept(s, m).ids) == if 0 in s.ids then Stored(s.ids) + ({m.id} - {0}) else Stored(s.ids)
  {
    FreeMeansAbsent(s.ids, m.id);
    FreeMeansAbsent(s.ids, 0);
    if m.id != 0 && m.id !in s.ids { UseInserts(s.ids, m.id); }
  }

  // ---------- several passes ----------

  datatype Pass = Pass(incoming: Incoming, env: Env)

  /** The state after a number of passes. */
  function Passes(s: State, passes: seq<Pass>): State
    decreases |passes|
  {
    if passes == [] then s else Passes(Cycle(s, passes[0].incoming, passes[0].env).state, passes[1..])
  }

  /** `waitfor`: passes are made until one returns the packet type; running out of passes is the timer
      expiring. `answer` is the packet that ended the wait. */
  datatype Waiting = Waiting(state: State, answer: Option<Packet>, sent: seq<Packet>)

  function Wait(s: State, packetType: int, passes: seq<Pass>): Waiting
    requires packetType > 0
    decreases |passes|
  {
    if passes == [] then Waiting(s, None, [])
    else
      var o := Cycle(s, passes[0].incoming, passes[0].env);
      if o.rc == packetType then Waiting(o.state, Some(passes[0].incoming.packet), o.sent)
      else
        var rest := Wait(o.state, packetType, passes[1..]);
        rest.(sent := o.sent + rest.sent)
  }

  lemma AnswerHasType(s: State, pass: Pass, packetType: int)
    requires packetType > 0 && Cycle(s, pass.incoming, pass.env).rc == packetType
    ensures pass.incoming.Received? && TypeOf(pass.incoming.packet) == packetType
  {
  }

  /** The wait makes n passes; none but the last returns the type, and the last does exactly when there
      is an answer. Without one, all passes have been made. */
  lemma {:induction false} WaitIsPasses(s: State, packetType: int, passes: seq<Pass>) returns (n: nat)
    requires packetType > 0
    ensures n <= |passes| && Wait(s, packetType, passes).state == Passes(s, passes[..n])
    ensures Wait(s, packetType, passes).answer.Some? ==>
      n > 0 && passes[n - 1].incoming == Received(Wait(s, packetType, passes).answer.value)
    ensures Wait(s, packetType, passes).answer.Some? ==> TypeOf(Wait(s, packetType, passes).answer.value) == packetType
    ensures Wait(s, packetType, passes).answer.None? ==> n == |passes|
    ensures forall i :: 0 <= i < n ==>
      (Cycle(Passes(s, passes[..i]), passes[i].incoming, passes[i].env).rc == packetType <==>
       i == n - 1 && Wait(s, packetType, passes).answer.Some?)
    decreases |passes|
  {
    if passes == [] { return 0; }
    var o := Cycle(s, passes[0].incoming, passes[0].env);
    assert passes[..0] == [];
    if o.rc == packetType {
      AnswerHasType(s, passes[0], packetType);
      OnePass(s, passes, 1);
      return 1;
    }
    var n' := WaitIsPasses(o.state, packetType, passes[1..]);
    n := n' + 1;
    OnePass(s, passes, n);
    forall i | 0 < i < n
      ensures Passes(s, passes[..i]) == Passes(o.state, passes[1..][..i - 1]) && passes[i] == passes[1..][i - 1]
    {
      OnePass(s, passes, i);
    }
  }

  lemma OnePass(s: State, passes: seq<Pass>, n: nat)
    requires 0 < n <= |passes|
    ensures Passes(s, passes[..n]) ==
      Passes(Cycle(s, passes[0].incoming, passes[0].env).state, passes[1..][..n - 1])
  {
    assert passes[..n][1..] == passes[1..][..n - 1];
  }

  /** Types of packets that the clients wait for: a pass that reads one always returns its type. */
  predicate Awaited(packetType: int) {
    packetType in {CONNACK, PUBACK, PUBCOMP, SUBACK, UNSUBACK}
  }

  /** The answer is the first packet of the type among those that arrive. */
  lemma {:induction false} AnswerIsFirst(s: State, packetType: int, passes: seq<Pass>)
    requires Awaited(packetType)
    ensures Wait(s, packetType, passes).answer == FirstOfType(passes, packetType)
    decreases |passes|
  {
    if passes != [] {
      AwaitedReturns(s, passes[0], packetType);
      AnswerIsFirst(Cycle(s, passes[0].incoming, passes[0].env).state, packetType, passes[1..]);
    }
  }

  lemma AwaitedReturns(s: State, pass: Pass, packetType: int)
    requires Awaited(packetType)
    ensures Cycle(s, pass.incoming, pass.env).rc == packetType <==> HasType(pass, packetType)
  {
    CycleLaws(s, pass.incoming, pass.env);
  }

  function FirstOfType(passes: seq<Pass>, packetType: int): (answer: Option<Packet>)
    ensures answer.Some? ==> TypeOf(answer.value) == packetType
    ensures answer.Some? <==> exists i :: 0 <= i < |passes| && HasType(passes[i], packetType)
    ensures answer.Some? ==> exists i :: FirstWithType(passes, packetType, i) && passes[i].incoming.packet == answer.value
    decreases |passes|
  {
    if passes == [] then None
    else if HasType(passes[0], packetType) then Some(passes[0].incoming.packet)
    else
      var answer := FirstOfType(passes[1..], packetType);
      assert forall i :: 0 < i < |passes| ==> passes[i] == passes[1..][i - 1];
      assert forall i :: FirstWithType(passes[1..], packetType, i) ==> FirstWithType(passes, packetType, i + 1);
      answer
  }

  predicate FirstWithType(passes: seq<Pass>, packetType: int, i: int) {
    0 <= i < |passes| && HasType(passes[i], packetType) && forall j :: 0 <= j < i ==> !HasType(passes[j], packetType)
  }

  predicate HasType(pass: Pass, packetType: int) {
    pass.incoming.Received? && TypeOf(pass.incoming.packet) == packetType
  }

  /** What cleanSession leaves of a state. */
  function Cleaned(s: State): State {
    s.(ids := seq(|s.ids|, _ => 0), pingOutstanding := false)
  }

  class Client {
    const messageHandlers: array<Handler>
    const incomingQoS2messages: array<nat>
    var defaultMessageHandler: Option<nat>
    var pingOutstanding: bool
    var keepAliveInterval: nat
    var cleansession: bool
    var isconnected: bool
    const packetid: PacketIds.PacketId
    var readbuf: Packet
    var deliveries: seq<Message>
    var calls: seq<Call>
    var sent: seq<Packet>

    /** Filters are in the format the matching loop assumes. */
    ghost predicate Valid()
      reads this, messageHandlers, incomingQoS2messages, packetid
    {
      packetid.Valid() && forall h :: h in messageHandlers[..] && h.topicFilter.Some? ==>
        Topics.WellFormed(Topics.Levels(h.topicFilter.value))
    }

    ghost function Snapshot(): State
      reads this, incomingQoS2messages
    {
      State(incomingQoS2messages[..], deliveries, pingOutstanding, keepAliveInterval)
    }

    constructor (maxHandlers: nat, maxIncoming: nat)
      ensures Valid() && fresh(messageHandlers) && fresh(incomingQoS2messages)
      ensures messageHandlers.Length == maxHandlers && incomingQoS2messages.Length == maxIncoming
      ensures Snapshot() == State(seq(maxIncoming, _ => 0), [], false, 0) && !isconnected
      ensures forall h :: h in messageHandlers[..] ==> h.topicFilter == None
      ensures fresh(packetid) && packetid.next == 0 && calls == [] && sent == []
    {
      messageHandlers := new Handler[maxHandlers](_ => Handler(None, None));
      incomingQoS2messages := new nat[maxIncoming](_ => 0);
      defaultMessageHandler := None;
      pingOutstanding, keepAliveInterval, cleansession, isconnected := false, 0, true, false;
      deliveries, calls, sent, readbuf := [], [], [], Pingreq;
      packetid := new PacketIds.PacketId(0);
      new;
      CleanSession();
    }

    /** Forgets the handlers' filters, the stored identifiers and the connection. */
    method CleanSession()
      requires packetid.Valid()
      modifies this, messageHandlers, incomingQoS2messages
      ensures Valid() && !isconnected && !pingOutstanding
      ensures forall i :: 0 <= i < incomingQoS2messages.Length ==> incomingQoS2messages[i] == 0
      ensures deliveries == old(deliveries) && keepAliveInterval == old(keepAliveInterval)
      ensures Snapshot() == Cleaned(old(Snapshot()))
      ensures forall i :: 0 <= i < messageHandlers.Length ==>
        messageHandlers[i] == old(messageHandlers[i]).(topicFilter := None)
      ensures calls == old(calls) && sent == old(sent) && defaultMessageHandler == old(defaultMessageHandler)
      ensures cleansession == old(cleansession)
    {
      pingOutstanding := false;
      for i := 0 to messageHandlers.Length
        modifies messageHandlers
        invariant forall j :: 0 <= j < i ==> messageHandlers[j] == old(messageHandlers[j]).(topicFilter := None)
        invariant forall j :: i <= j < messageHandlers.Length ==> messageHandlers[j] == old(messageHandlers[j])
      {
        messageHandlers[i] := messageHandlers[i].(topicFilter := None);
      }
      isconnected := false;
      for i := 0 to incomingQoS2messages.Length
        modifies incomingQoS2messages
        invariant forall j :: 0 <= j < i ==> incomingQoS2messages[j] == 0
      {
        incomingQoS2messages[i] := 0;
      }
      assert incomingQoS2messages[..] == seq(incomingQoS2messages.Length, _ => 0);
    }

    method IsQoS2MsgIdFree(id: nat) returns (free: bool)
      ensures free <==> IsFree(incomingQoS2messages[..], id)
    {
      FreeMeansAbsent(incomingQoS2messages[..], id);
      for i := 0 to incomingQoS2messages.Length
        invariant id !in incomingQoS2messages[..i]
      {
        if incomingQoS2messages[i] == id {
          assert incomingQoS2messages[..][i] == id;
          return false;
        }
      }
      assert incomingQoS2messages[..incomingQoS2messages.Length] == incomingQoS2messages[..];
      return true;
    }

    method UseQoS2MsgId(id: nat) returns (room: bool)
      modifies incomingQoS2messages
      ensures (room, incomingQoS2messages[..]) == Use(old(incomingQoS2messages[..]), id)
    {
      ghost var ids := incomingQoS2messages[..];
      for i := 0 to incomingQoS2messages.Length
        invariant incomingQoS2messages[..] == ids && 0 !in ids[..i]
      {
        if incomingQoS2messages[i] == 0 {
          FirstAt(ids, 0, i);
          incomingQoS2messages[i] := id;
          return true;
        }
      }
      FreeMeansAbsent(ids, 0);
      assert ids[..incomingQoS2messages.Length] == ids;
      return false;
    }

    method FreeQoS2MsgId(id: nat)
      modifies incomingQoS2messages
      ensures incomingQoS2messages[..] == Free(old(incomingQoS2messages[..]), id)
    {
      ghost var ids := incomingQoS2messages[..];
      for i := 0 to incomingQoS2messages.Length
        invariant incomingQoS2messages[..] == ids && id !in ids[..i]
      {
        if incomingQoS2messages[i] == id {
          FirstAt(ids, id, i);
          incomingQoS2messages[i] := 0;
          return;
        }
      }
      FreeMeansAbsent(ids, id);
      assert ids[..incomingQoS2messages.Length] == ids;
    }

    method DeliverMessage(m: Message) returns (rc: int)
      requires Valid()
      modifies this`calls, this`deliveries
      ensures Valid()
      ensures deliveries == old(deliveries) + [m]
      ensures calls == old(calls) + Dispatch(messageHandlers[..], defaultMessageHandler, m)
      ensures rc == SUCCESS <==> Dispatch(messageHandlers[..], defaultMessageHandler, m) != []
      ensures rc == SUCCESS || rc == FAILURE
    {
      rc := FAILURE;
      deliveries := deliveries + [m];
      ghost var hs := messageHandlers[..];
      for i := 0 to messageHandlers.Length
        invariant deliveries == old(deliveries) + [m]
        invariant calls == old(calls) + SlotCalls(hs, i, m)
        invariant rc == if SlotCalls(hs, i, m) == [] then FAILURE else SUCCESS
      {
        var h := messageHandlers[i];
        assert h == hs[i] && h in hs;
        if h.topicFilter.Some? {
          var matched := m.topic == h.topicFilter.value;
          if matched {
            Topics.EqualTopicsMatch(m.topic);
          } else {
            matched := Topics.IsTopicMatched(h.topicFilter.value, m.topic);
          }
          if matched && h.fp.Some? {
            calls := calls + [Call(h.fp.value, m)];
            rc := SUCCESS;
          }
        }
      }
      if rc == FAILURE && defaultMessageHandler.Some? {
        calls := calls + [Call(defaultMessageHandler.value, m)];
        rc := SUCCESS;
      }
    }

    method KeepAlive(env: Env)
      modifies this`pingOutstanding, this`sent
      ensures var pings := keepAliveInterval > 0 && env.idle && !old(pingOutstanding) && env.pingOk;
        pingOutstanding == (old(pingOutstanding) || pings) && sent == old(sent) + if pings then [Pingreq] else []
    {
      if keepAliveInterval == 0 { return; }
      if env.idle {
        if !pingOutstanding {
          if env.pingOk {
            sent := sent + [Pingreq];
            pingOutstanding := true;
          }
        }
      }
    }

    /** Attaches a callback to the first free slot. */
    method FillSlot(topicFilter: string, fp: nat) returns (found: bool)
      modifies messageHandlers
      ensures messageHandlers[..] == Register(old(messageHandlers[..]), topicFilter, fp)
      ensures found <==> FirstSlot(old(messageHandlers[..]), None) < messageHandlers.Length
    {
      ghost var hs := messageHandlers[..];
      for i := 0 to messageHandlers.Length
        invariant messageHandlers[..] == hs
        invariant forall j :: 0 <= j < i ==> hs[j].topicFilter != None
      {
        if messageHandlers[i].topicFilter == None {
          FirstSlotIs(hs, None, i);
          messageHandlers[i] := Handler(Some(topicFilter), Some(fp));
          return true;
        }
      }
      return false;
    }

    /** Frees the first slot with the filter. */
    method ClearSlot(topicFilter: string)
      modifies messageHandlers
      ensures messageHandlers[..] == Unregister(old(messageHandlers[..]), topicFilter)
    {
      ghost var hs := messageHandlers[..];
      for i := 0 to messageHandlers.Length
        invariant messageHandlers[..] == hs
        invariant forall j :: 0 <= j < i ==> hs[j].topicFilter != Some(topicFilter)
      {
        if messageHandlers[i].topicFilter == Some(topicFilter) {
          FirstSlotIs(hs, Some(topicFilter), i);
          messageHandlers[i] := messageHandlers[i].(topicFilter := None);
          return;
        }
      }
    }

    /** subscribe. Packets that arrive before the answer are handled as in any pass. A full table turns
        a granted QoS above 0 into an error, and one of 0 into a success that registers nothing. */
    method Subscribe(topicFilter: string, qos: nat, fp: nat, serialised: bool, sendOk: bool, passes: seq<Pass>)
      returns (rc: int)
      requires Valid() && Topics.WellFormed(Topics.Levels(topicFilter))
      modifies this, messageHandlers, incomingQoS2messages, packetid
      ensures Valid() && (isconnected <==> rc == SUCCESS)
      ensures packetid.next == if old(isconnected) then PacketIds.Next(old(packetid.next)) else old(packetid.next)
      ensures !(old(isconnected) && serialised && sendOk) ==> rc == FAILURE && sent == old(sent) && calls == old(calls)
      ensures !(old(isconnected) && serialised && sendOk) ==> Snapshot() == Cleaned(old(Snapshot()))
      ensures old(isconnected) && serialised && sendOk ==>
        var w := Wait(old(Snapshot()), SUBACK, passes);
        sent == old(sent) + [Packet.Subscribe(packetid.next, topicFilter, qos)] + w.sent &&
        Snapshot() == (if rc == SUCCESS then w.state else Cleaned(w.state))
      ensures old(isconnected) && serialised && sendOk ==>
        var answer, free := FirstOfType(passes, SUBACK), FirstSlot(old(messageHandlers[..]), None);
        (answer == None ==> rc == FAILURE) &&
        (answer.Some? && answer.value.Suback? && answer.value.granted == 0x80 ==> rc == 0x80) &&
        (answer.Some? && answer.value.Suback? && answer.value.granted != 0x80 ==>
          rc == if free < messageHandlers.Length then SUCCESS else answer.value.granted) &&
        (answer.Some? && !answer.value.Suback? ==> rc == SUCCESS)
      ensures rc == SUCCESS && FirstSlot(old(messageHandlers[..]), None) < messageHandlers.Length ==>
        messageHandlers[..] == old(messageHandlers[..])[FirstSlot(old(messageHandlers[..]), None) :=
          Handler(Some(topicFilter), Some(fp))]
      ensures old(isconnected) && serialised && sendOk ==>
        Called(old(messageHandlers[..]), old(defaultMessageHandler), old(deliveries), deliveries, old(calls), calls)
      ensures rc == SUCCESS ==> messageHandlers[..] == Register(old(messageHandlers[..]), topicFilter, fp)
      ensures rc == SUCCESS && FirstSlot(old(messageHandlers[..]), None) == messageHandlers.Length ==>
        messageHandlers[..] == old(messageHandlers[..])
      ensures rc != SUCCESS ==> forall h :: h in messageHandlers[..] ==> h.topicFilter == None
      ensures defaultMessageHandler == old(defaultMessageHandler) && cleansession == old(cleansession)
    {
      rc := TrySubscribe(topicFilter, qos, fp, serialised, sendOk, passes);
      if rc != SUCCESS { CleanSession(); }
    }

    /** subscribe, up to cleaning the session after a failure. */
    method TrySubscribe(topicFilter: string, qos: nat, fp: nat, serialised: bool, sendOk: bool, passes: seq<Pass>)
      returns (rc: int)
      requires Valid() && Topics.WellFormed(Topics.Levels(topicFilter))
      modifies messageHandlers, incomingQoS2messages, packetid
      modifies this`calls, this`deliveries, this`pingOutstanding, this`sent, this`readbuf
      ensures Valid() && (rc == SUCCESS ==> isconnected)
      ensures packetid.next == if isconnected then PacketIds.Next(old(packetid.next)) else old(packetid.next)
      ensures !(isconnected && serialised && sendOk) ==>
        rc == FAILURE && sent == old(sent) && calls == old(calls) && Snapshot() == old(Snapshot())
      ensures isconnected && serialised && sendOk ==>
        var w, free := Wait(old(Snapshot()), SUBACK, passes), FirstSlot(old(messageHandlers[..]), None);
        w.answer == FirstOfType(passes, SUBACK) && Snapshot() == w.state &&
        sent == old(sent) + [Packet.Subscribe(packetid.next, topicFilter, qos)] + w.sent &&
        rc == if w.answer == None then FAILURE
              else if w.answer.value.Suback? && w.answer.value.granted == 0x80 then 0x80
              else if w.answer.value.Suback? && free == messageHandlers.Length then w.answer.value.granted
              else SUCCESS
      ensures isconnected && serialised && sendOk ==>
        Called(old(messageHandlers[..]), defaultMessageHandler, old(deliveries), deliveries, old(calls), calls)
      ensures rc == SUCCESS ==> messageHandlers[..] == Register(old(messageHandlers[..]), topicFilter, fp)
    {
      rc := FAILURE;
      if isconnected {
        var id := packetid.GetNext();
        if serialised && sendOk {
          sent := sent + [Packet.Subscribe(id, topicFilter, qos)];
          AnswerIsFirst(Snapshot(), SUBACK, passes);
          var answer := WaitFor(SUBACK, passes);
          if answer == SUBACK {
            rc := if readbuf.Suback? then readbuf.granted else SUCCESS;
            if rc != 0x80 {
              var found := FillSlot(topicFilter, fp);
              if found { rc := SUCCESS; }
            }
          }
        }
      }
    }

    /** unsubscribe. An answer that cannot be parsed is a success that frees no slot. */
    method Unsubscribe(topicFilter: string, serialised: bool, sendOk: bool, passes: seq<Pass>) returns (rc: int)
      requires Valid()
      modifies this, messageHandlers, incomingQoS2messages, packetid
      ensures Valid() && (isconnected <==> rc == SUCCESS)
      ensures packetid.next == if old(isconnected) then PacketIds.Next(old(packetid.next)) else old(packetid.next)
      ensures !(old(isconnected) && serialised && sendOk) ==> rc == FAILURE && sent == old(sent) && calls == old(calls)
      ensures !(old(isconnected) && serialised && sendOk) ==> Snapshot() == Cleaned(old(Snapshot()))
      ensures old(isconnected) && serialised && sendOk ==>
        var w := Wait(old(Snapshot()), UNSUBACK, passes);
        rc == (if FirstOfType(passes, UNSUBACK).Some? then SUCCESS else FAILURE) &&
        sent == old(sent) + [Packet.Unsubscribe(packetid.next, topicFilter)] + w.sent &&
        Snapshot() == (if rc == SUCCESS then w.state else Cleaned(w.state))
      ensures rc == SUCCESS && FirstOfType(passes, UNSUBACK).value.Unsuback? ==>
        messageHandlers[..] == Unregister(old(messageHandlers[..]), topicFilter)
      ensures rc == SUCCESS && !FirstOfType(passes, UNSUBACK).value.Unsuback? ==>
        messageHandlers[..] == old(messageHandlers[..])
      ensures old(isconnected) && serialised && sendOk ==>
        Called(old(messageHandlers[..]), old(defaultMessageHandler), old(deliveries), deliveries, old(calls), calls)
      ensures rc != SUCCESS ==> forall h :: h in messageHandlers[..] ==> h.topicFilter == None
      ensures defaultMessageHandler == old(defaultMessageHandler) && cleansession == old(cleansession)
    {
      rc := FAILURE;
      if isconnected {
        var id := packetid.GetNext();
        if serialised && sendOk {
          sent := sent + [Packet.Unsubscribe(id, topicFilter)];
          AnswerIsFirst(Snapshot(), UNSUBACK, passes);
          var answer := WaitFor(UNSUBACK, passes);
          if answer == UNSUBACK {
            rc := SUCCESS;
            if readbuf.Unsuback? { ClearSlot(topicFilter); }
          }
        }
      }
      if rc != SUCCESS { CleanSession(); }
    }

    /** Without cleansession, a disconnect keeps the stored identifiers and the handlers. */
    method DisconnectSession(sendOk: bool) returns (rc: int)
      requires Valid()
      modifies this, messageHandlers, incomingQoS2messages
      ensures Valid() && !isconnected && rc == if sendOk then SUCCESS else FAILURE
      ensures sent == old(sent) + if sendOk then [Disconnect] else []
      ensures !old(cleansession) ==> Snapshot() == old(Snapshot()) && messageHandlers[..] == old(messageHandlers[..])
      ensures old(cleansession) ==> Snapshot() == Cleaned(old(Snapshot()))
      ensures calls == old(calls) && defaultMessageHandler == old(defaultMessageHandler) && cleansession == old(cleansession)
      ensures old(cleansession) ==> forall h :: h in messageHandlers[..] ==> h.topicFilter == None
    {
      rc := FAILURE;
      if sendOk {
        sent := sent + [Disconnect];
        rc := SUCCESS;
      }
      if cleansession { CleanSession(); } else { isconnected := false; }
    }

    /** The PUBLISH case of the switch, up to and including the reply. */
    method OnPublish(m: Message, env: Env) returns (rc: int)
      requires Valid()
      modifies this`calls, this`deliveries, this`sent, incomingQoS2messages
      ensures Valid() && Snapshot() == Accept(old(Snapshot()), m)
      ensures PassDelivers(Received(Packet.Publish(m)), old(incomingQoS2messages[..]), old(deliveries), deliveries)
      ensures rc == if m.qos == 0 || (m.qos <= 2 && env.sendOk) then SUCCESS else FAILURE
      ensures sent == old(sent) +
        if rc == FAILURE || m.qos == 0 then [] else [if m.qos == 1 then Puback(m.id) else Pubrec(m.id)]
      ensures Called(messageHandlers[..], defaultMessageHandler, old(deliveries), deliveries, old(calls), calls)
    {
      AcceptDelivers(Snapshot(), m);
      NoneCalled(messageHandlers[..], defaultMessageHandler, deliveries, calls);
      OneCalled(messageHandlers[..], defaultMessageHandler, deliveries, m, calls);
      if m.qos != 2 {
        var _ := DeliverMessage(m);
      } else {
        var free := IsQoS2MsgIdFree(m.id);
        if free {
          var room := UseQoS2MsgId(m.id);
          if room {
            var _ := DeliverMessage(m);
          }
        }
      }
      if m.qos == 0 { return SUCCESS; }
      if (m.qos != 1 && m.qos != 2) || !env.sendOk { return FAILURE; }
      sent := sent + [if m.qos == 1 then Puback(m.id) else Pubrec(m.id)];
      rc := SUCCESS;
    }

    /** The PUBREC and PUBREL cases of the switch: the answer, and after a PUBCOMP the identifier is freed. */
    method OnAck(p: Packet, env: Env) returns (rc: int)
      requires Valid() && (TypeOf(p) == PUBREC || TypeOf(p) == PUBREL)
      modifies this`sent, incomingQoS2messages
      ensures Valid() && rc == if p.Undecodable? || !env.sendOk then FAILURE else SUCCESS
      ensures sent == old(sent) + if rc == FAILURE then [] else [if p.Pubrec? then Pubrel(p.id) else Pubcomp(p.id)]
      ensures Snapshot() == if rc == SUCCESS && p.Pubrel?
        then old(Snapshot()).(ids := Free(old(Snapshot()).ids, p.id)) else old(Snapshot())
    {
      if p.Undecodable? || !env.sendOk { return FAILURE; }
      sent := sent + [if TypeOf(p) == PUBREC then Pubrel(p.id) else Pubcomp(p.id)];
      if TypeOf(p) == PUBREL {
        FreeQoS2MsgId(p.id);
      }
      rc := SUCCESS;
    }

    /** The switch on the type of the packet read. */
    method Handle(p: Packet, env: Env) returns (rc: int)
      requires Valid()
      modifies this`calls, this`deliveries, this`pingOutstanding, this`sent, incomingQoS2messages
      ensures Valid()
      ensures var o := Switch(old(Snapshot()), p, env);
        Snapshot() == o.state && rc == o.rc && sent == old(sent) + o.sent
      ensures Called(messageHandlers[..], defaultMessageHandler, old(deliveries), deliveries, old(calls), calls)
    {
      rc := SUCCESS;
      var packetType := TypeOf(p);
      if packetType == PUBLISH {
        if !p.Publish? { return packetType; }
        rc := OnPublish(p.message, env);
      } else if packetType == PUBREC || packetType == PUBREL {
        rc := OnAck(p, env);
      } else if packetType == PINGRESP {
        pingOutstanding := false;
      }
    }

    /** One pass: one packet off the wire, the reply to it, and a keep-alive check. */
    method DoCycle(incoming: Incoming, env: Env) returns (rc: int)
      requires Valid()
      modifies this`calls, this`deliveries, this`pingOutstanding, this`sent, this`readbuf, incomingQoS2messages
      ensures Valid() && readbuf == if incoming.Received? then incoming.packet else old(readbuf)
      ensures var o := Cycle(old(Snapshot()), incoming, env);
        Snapshot() == o.state && rc == o.rc && sent == old(sent) + o.sent
      ensures Called(messageHandlers[..], defaultMessageHandler, old(deliveries), deliveries, old(calls), calls)
      ensures PassDelivers(incoming, old(incomingQoS2messages[..]), old(deliveries), deliveries)
      ensures old(sent) <= sent && PassAnswers(incoming, env, sent[|old(sent)|..],
        PassPings(incoming, env, keepAliveInterval, old(pingOutstanding)))
      ensures pingOutstanding == (PassPings(incoming, env, keepAliveInterval, old(pingOutstanding)) ||
        (old(pingOutstanding) && !IsPingresp(incoming)))
      ensures PassReturns(incoming, env, rc)
      ensures PassStores(incoming, env, old(incomingQoS2messages[..]), incomingQoS2messages[..])
    {
      ghost var before := Snapshot();
      CycleLaws(before, incoming, env);
      CycleStores(before, incoming, env);
      rc := ReadAndHandle(incoming, env);
      assert sent[|old(sent)|..] == Cycle(before, incoming, env).sent;
    }

    /** The body of `cycle`: the packet read goes through the switch, and unless that ended the pass the
        keep-alive check follows. */
    method ReadAndHandle(incoming: Incoming, env: Env) returns (rc: int)
      requires Valid()
      modifies this`calls, this`deliveries, this`pingOutstanding, this`sent, this`readbuf, incomingQoS2messages
      ensures Valid() && readbuf == if incoming.Received? then incoming.packet else old(readbuf)
      ensures var o := Cycle(old(Snapshot()), incoming, env);
        Snapshot() == o.state && rc == o.rc && sent == old(sent) + o.sent
      ensures Called(messageHandlers[..], defaultMessageHandler, old(deliveries), deliveries, old(calls), calls)
    {
      if !incoming.Received? {
        KeepAlive(env);
        return if incoming.Nothing? then FAILURE else BUFFER_OVERFLOW;
      }
      readbuf := incoming.packet;
      CycleIsSwitch(Snapshot(), readbuf, env);
      rc := Handle(readbuf, env);
      if rc != SUCCESS { return; }
      KeepAlive(env);
      rc := TypeOf(readbuf);
    }

    /** waitfor. The read buffer holds the answer. */
    method WaitFor(packetType: int, passes: seq<Pass>) returns (rc: int)
      requires Valid() && packetType > 0
      modifies this`calls, this`deliveries, this`pingOutstanding, this`sent, this`readbuf, incomingQoS2messages
      ensures Valid()
      ensures var w := Wait(old(Snapshot()), packetType, passes);
        Snapshot() == w.state && sent == old(sent) + w.sent && (rc == packetType <==> w.answer.Some?) &&
        (w.answer.Some? ==> w.answer.value == readbuf && TypeOf(readbuf) == packetType)
      ensures Called(messageHandlers[..], defaultMessageHandler, old(deliveries), deliveries, old(calls), calls)
    {
      rc := FAILURE;
      ghost var s, hs := Snapshot(), messageHandlers[..];
      for i := 0 to |passes|
        invariant Valid() && rc != packetType
        invariant Prefixed(Wait(s, packetType, passes), old(sent), Wait(Snapshot(), packetType, passes[i..]), sent)
        invariant Called(hs, defaultMessageHandler, old(deliveries), deliveries, old(calls), calls)
      {
        ghost var before, ds, cs := Snapshot(), deliveries, calls;
        WaitStep(Wait(s, packetType, passes), old(sent), before, packetType, passes, i, sent);
        rc := DoCycle(passes[i].incoming, passes[i].env);
        CalledTwice(hs, defaultMessageHandler, old(deliveries), ds, deliveries, old(calls), cs, calls);
        if rc == packetType {
          AnswerHasType(before, passes[i], packetType);
          return;
        }
      }
    }
  }

  /** The callbacks made while `ds0` grew to `ds` are those of the new messages, in order. */
  predicate Called(hs: seq<Handler>, default: Option<nat>, ds0: seq<Message>, ds: seq<Message>, cs0: seq<Call>, cs: seq<Call>) {
    ds0 <= ds && cs == cs0 + DispatchAll(hs, default, ds[|ds0|..])
  }

  lemma NoneCalled(hs: seq<Handler>, default: Option<nat>, ds: seq<Message>, cs: seq<Call>)
    ensures Called(hs, default, ds, ds, cs, cs)
  {
  }

  lemma OneCalled(hs: seq<Handler>, default: Option<nat>, ds: seq<Message>, m: Message, cs: seq<Call>)
    ensures Called(hs, default, ds, ds + [m], cs, cs + Dispatch(hs, default, m))
  {
    assert (ds + [m])[|ds|..] == [] + [m];
    DispatchOneMore(hs, default, [], m);
  }

  lemma CalledTwice(hs: seq<Handler>, default: Option<nat>, ds0: seq<Message>, ds1: seq<Message>, ds2: seq<Message>,
                    cs0: seq<Call>, cs1: seq<Call>, cs2: seq<Call>)
    requires Called(hs, default, ds0, ds1, cs0, cs1) && Called(hs, default, ds1, ds2, cs1, cs2)
    ensures Called(hs, default, ds0, ds2, cs0, cs2)
  {
    var a, b := ds1[|ds0|..], ds2[|ds1|..];
    assert ds2[|ds0|..] == a + b;
    DispatchAppend(hs, default, a, b);
    Assoc(cs0, DispatchAll(hs, default, a), DispatchAll(hs, default, b));
  }

  /** The whole wait is what has been done so far, followed by the rest. */
  predicate Prefixed(whole: Waiting, before: seq<Packet>, rest: Waiting, sent: seq<Packet>) {
    whole.state == rest.state && whole.answer == rest.answer && before + whole.sent == sent + rest.sent
  }

  lemma WaitStep(whole: Waiting, before: seq<Packet>, s: State, packetType: int, passes: seq<Pass>, i: nat, sent: seq<Packet>)
    requires packetType > 0 && i < |passes| && Prefixed(whole, before, Wait(s, packetType, passes[i..]), sent)
    ensures var o := Cycle(s, passes[i].incoming, passes[i].env);
      if o.rc == packetType then Prefixed(whole, before, Waiting(o.state, Some(passes[i].incoming.packet), []), sent + o.sent)
      else Prefixed(whole, before, Wait(o.state, packetType, passes[i + 1..]), sent + o.sent)
  {
    var o := Cycle(s, passes[i].incoming, passes[i].env);
    assert passes[i..][1..] == passes[i + 1..];
    if o.rc != packetType { Assoc(sent, o.sent, Wait(o.state, packetType, passes[i + 1..]).sent); }
  }

  lemma {:induction false} FirstAt(ids: seq<nat>, x: nat, i: nat)
    requires i < |ids| && ids[i] == x && x !in ids[..i]
    ensures IndexOf(ids, x) == i
  {
  }
}
