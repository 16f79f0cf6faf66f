/** The connection state of the FreeRTOS MQTT client over a history of events. */
module Connection {
  import opened Wrappers
  import opened MqttPackets
  import opened ReturnCodes
  import opened Handlers
  import PacketIds

  /** `readPacket` failing reads as this: its -1 is stored in an unsigned short. */
  const NO_PACKET := 65535

  /** Packets sent in full, packets read, and the two assignments to `isconnected`. */
  datatype Event = Sent(packet: Packet) | Read(packet: Packet) | Opened | Closed

  /** What the environment decides during one pass of `cycle`. */
  datatype Pass = Pass(incoming: Option<Packet>, replyOk: bool, idle: bool, pingOk: bool)

  // ---------- histories ----------

  predicate IsOpen(h: seq<Event>) {
    h != [] && (h[|h| - 1].Opened? || (!h[|h| - 1].Closed? && IsOpen(h[..|h| - 1])))
  }

  /** CONNECT went out, and the last packet read since is a CONNACK with return code 0. */
  predicate HandshakeDone(h: seq<Event>) {
    exists i, j :: 0 <= i < j < |h| && h[i] == Sent(Connect) && h[j] == Read(Connack(0)) &&
      (forall k :: j < k < |h| ==> !h[k].Read?) && (forall k :: i < k < |h| ==> !h[k].Opened? && !h[k].Closed?)
  }

  /** What may happen after a history. */
  predicate Allowed(h: seq<Event>, e: Event) {
    match e
    case Sent(Connect) => !IsOpen(h)
    case Sent(Subscribe(_, _, _)) => IsOpen(h)
    case Sent(Unsubscribe(_, _)) => IsOpen(h)
    case Sent(Publish(_)) => IsOpen(h)
    case Sent(Pingreq) => true
    case Sent(Disconnect) => true
    case Sent(p) => h != [] && h[|h| - 1].Read? && Answers(h[|h| - 1].packet, p) && !p.Pubcomp?
    case Opened => HandshakeDone(h)
    case _ => true
  }

  predicate Legal(h: seq<Event>) {
    forall k {:trigger Allowed(h[..k], h[k])} :: 0 <= k < |h| ==> Allowed(h[..k], h[k])
  }

  lemma LegalAppend(h: seq<Event>, e: Event)
    requires Legal(h) && Allowed(h, e)
    ensures Legal(h + [e])
    ensures IsOpen(h + [e]) <==> e.Opened? || (!e.Closed? && IsOpen(h))
  {
    var h' := h + [e];
    assert h'[..|h|] == h;
    forall k | 0 <= k < |h'| ensures Allowed(h'[..k], h'[k]) {
      if k < |h| { assert h'[..k] == h[..k]; }
    }
  }

  /** Nothing but a connection's own opening makes a history open. */
  lemma {:induction false} OpenWasOpened(h: seq<Event>) returns (k: nat)
    requires IsOpen(h)
    ensures k < |h| && h[k].Opened? && forall i :: k < i < |h| ==> !h[i].Closed?
  {
    if h[|h| - 1].Opened? {
      k := |h| - 1;
    } else {
      k := OpenWasOpened(h[..|h| - 1]);
    }
  }

  /** In a legal history, every request was preceded by a completed handshake not closed since. */
  lemma RequestsFollowHandshake(h: seq<Event>, n: nat) returns (i: nat, j: nat)
    requires Legal(h) && n < |h|
    requires h[n].Sent? && (h[n].packet.Subscribe? || h[n].packet.Unsubscribe? || h[n].packet.Publish?)
    ensures i < j < n && h[i] == Sent(Connect) && h[j] == Read(Connack(0))
    ensures forall k :: i < k < n ==> !h[k].Closed?
  {
    assert Allowed(h[..n], h[n]);
    var o := OpenWasOpened(h[..n]);
    assert Allowed(h[..o], h[o]);
    i, j :| 0 <= i < j < o && h[..o][i] == Sent(Connect) && h[..o][j] == Read(Connack(0)) &&
      (forall k :: j < k < o ==> !h[..o][k].Read?) && (forall k :: i < k < o ==> !h[..o][k].Opened? && !h[..o][k].Closed?);
    forall k | i < k < n ensures !h[k].Closed? {
      if k < o { assert !h[..o][k].Closed?; } else if k > o { assert !h[..n][k].Closed?; }
    }
  }

  /** In a legal history, an acknowledgement comes straight behind the packet it answers; a PUBREL is never
      answered, and no other packet that a broker sends is. */
  lemma RepliesAnswer(h: seq<Event>, n: nat)
    requires Legal(h) && n < |h| && h[n].Sent?
    ensures h[n].packet.Puback? || h[n].packet.Pubrec? ==> n > 0 && h[n - 1].Read? && h[n - 1].packet.Publish?
    ensures h[n].packet.Puback? ==> h[n - 1].packet.message.qos == 1 && h[n - 1].packet.message.id == h[n].packet.id
    ensures h[n].packet.Pubrec? ==> h[n - 1].packet.message.qos == 2 && h[n - 1].packet.message.id == h[n].packet.id
    ensures h[n].packet.Pubrel? ==> n > 0 && h[n - 1] == Read(Pubrec(h[n].packet.id))
    ensures TypeOf(h[n].packet) in {CONNECT, PUBLISH, PUBACK, PUBREC, PUBREL, SUBSCRIBE, UNSUBSCRIBE, PINGREQ, DISCONNECT}
  {
    assert Allowed(h[..n], h[n]);
  }

  // ---------- what one pass does ----------

  predicate NeedsAnswer(p: Packet) {
    p.Pubrec? || (p.Publish? && 1 <= p.message.qos <= 2)
  }

  /** The packet cannot be handled, or its answer does not go out. */
  predicate Fails(p: Packet, replyOk: bool) {
    p == Undecodable(PUBREC) || (p.Publish? && p.message.qos > 2) || (NeedsAnswer(p) && !replyOk)
  }

  /** The packet read, its answer if it needs one and sending succeeds, and then perhaps a ping. */
  predicate PassEvents(pass: Pass, pinged: bool, events: seq<Event>) {
    var answers := pass.incoming.Some? && NeedsAnswer(pass.incoming.value) && pass.replyOk;
    |events| == (if pass.incoming.Some? then 1 else 0) + (if answers then 1 else 0) + (if pinged then 1 else 0) &&
    (pass.incoming.Some? ==> events[0] == Read(pass.incoming.value)) &&
    (answers ==> events[1].Sent? && Answers(pass.incoming.value, events[1].packet)) &&
    (pinged ==> events[|events| - 1] == Sent(Pingreq))
  }

  predicate IsPingresp(pass: Pass) {
    pass.incoming.Some? && TypeOf(pass.incoming.value) == PINGRESP
  }

  /** When a ping goes out. */
  predicate PassPings(pass: Pass, interval: nat, outstanding: bool) {
    interval > 0 && pass.idle && pass.pingOk && (!outstanding || IsPingresp(pass)) &&
    (pass.incoming.Some? ==> !Fails(pass.incoming.value, pass.replyOk) && pass.incoming.value != Undecodable(PUBLISH))
  }

  /** A pass that returns the type of the packet it reads. */
  predicate Returns(pass: Pass, packetType: int) {
    pass.incoming.Some? && TypeOf(pass.incoming.value) == packetType && !Fails(pass.incoming.value, pass.replyOk)
  }

  /** The first pass that returns the type, or the number of passes. */
  function FirstReturning(passes: seq<Pass>, packetType: int): (i: nat)
    ensures i <= |passes| && (i < |passes| ==> Returns(passes[i], packetType))
    ensures forall j :: 0 <= j < i ==> !Returns(passes[j], packetType)
  {
    if passes == [] || Returns(passes[0], packetType) then 0 else 1 + FirstReturning(passes[1..], packetType)
  }

  // ---------- the client ----------

  /** The events of `later` past `earlier` neither open nor close the connection. */
  predicate Extends(earlier: seq<Event>, later: seq<Event>) {
    earlier <= later && forall k :: |earlier| <= k < |later| ==> !later[k].Opened? && !later[k].Closed?
  }

  /** The last packet read in the part of `h` from `start` on is `p`. */
  predicate LastRead(h: seq<Event>, start: nat, p: Packet) {
    exists j :: start <= j < |h| && h[j] == Read(p) && forall k :: j < k < |h| ==> !h[k].Read?
  }

  /** The packet read in a pass is the last one read, whatever is sent after it. */
  lemma ReadStays(before: seq<Event>, replied: seq<Event>, after: seq<Event>, p: Packet)
    requires before + [Read(p)] <= replied <= after && |replied| <= |before| + 2
    requires |replied| == |before| + 2 ==> replied[|before| + 1].Sent?
    requires |after| <= |replied| + 1 && (|after| == |replied| + 1 ==> after[|replied|].Sent?)
    ensures Extends(before, after) && LastRead(after, |before|, p)
  {
    assert after[|before|] == Read(p);
    assert before <= after;
    assert |replied| == |before| + 2 ==> after[|before| + 1] == replied[|before| + 1];
  }

  class Client {
    var nextPacketId: PacketIds.PacketId
    var keepAliveInterval: nat
    var pingOutstanding: bool
    var isconnected: bool
    var buf: Packet
    var readbuf: Packet
    var messageHandlers: seq<Handler>
    var history: seq<Event>

    ghost predicate Valid()
      reads this, nextPacketId
    {
      nextPacketId.Valid() && Legal(history) && (isconnected <==> IsOpen(history))
    }

    /** MQTTClientInit. */
    constructor (maxHandlers: nat)
      ensures Valid() && fresh(nextPacketId) && !isconnected && history == []
      ensures messageHandlers == seq(maxHandlers, _ => Handler(None, None)) && nextPacketId.next == 1
    {
      messageHandlers := seq(maxHandlers, _ => Handler(None, None));
      isconnected, pingOutstanding, keepAliveInterval := false, false, 0;
      buf, readbuf := Pingreq, Pingreq;
      history := [];
      nextPacketId := new PacketIds.PacketId(1);
    }

    /** Sends what is in the send buffer. */
    method SendPacket(ok: bool) returns (rc: int)
      requires Valid() && Allowed(history, Sent(buf))
      modifies this`history
      ensures Valid() && rc == if ok then SUCCESS else FAILURE
      ensures history == old(history) + if ok then [Sent(buf)] else []
    {
      if ok {
        LegalAppend(history, Sent(buf));
        history := history + [Sent(buf)];
        return SUCCESS;
      }
      rc := FAILURE;
    }

    method KeepAlive(pass: Pass)
      requires Valid()
      modifies this`history, this`buf, this`pingOutstanding
      ensures Valid()
      ensures var pings := keepAliveInterval > 0 && pass.idle && !old(pingOutstanding) && pass.pingOk;
        history == old(history) + (if pings then [Sent(Pingreq)] else []) &&
        pingOutstanding == (old(pingOutstanding) || pings)
    {
      if keepAliveInterval == 0 { return; }
      if pass.idle && !pingOutstanding {
        buf := Pingreq;
        var rc := SendPacket(pass.pingOk);
        if rc == SUCCESS { pingOutstanding := true; }
      }
    }

    /** One pass. The packet read stays in the read buffer whatever is sent afterwards. */
    method Cycle(pass: Pass) returns (rc: int)
      requires Valid()
      modifies this`history, this`buf, this`readbuf, this`pingOutstanding
      ensures Valid() && Extends(old(history), history)
      ensures readbuf == if pass.incoming.Some? then pass.incoming.value else old(readbuf)
      ensures pass.incoming.Some? ==> LastRead(history, |old(history)|, readbuf)
      ensures rc == if pass.incoming == None then NO_PACKET
        else if Fails(readbuf, pass.replyOk) then FAILURE else TypeOf(readbuf)
      ensures PassEvents(pass, PassPings(pass, keepAliveInterval, old(pingOutstanding)), history[|old(history)|..])
      ensures pingOutstanding == (PassPings(pass, keepAliveInterval, old(pingOutstanding)) ||
        (old(pingOutstanding) && !IsPingresp(pass)))
    {
      if pass.incoming == None {
        KeepAlive(pass);
        return NO_PACKET;
      }
      rc := ReadAndReply(pass);
      ghost var replied := history;
      if rc == SUCCESS {
        KeepAlive(pass);
        rc := TypeOf(readbuf);
      }
      ReadStays(old(history), replied, history, readbuf);
    }

    /** The first half of a pass: a packet off the wire, and the switch on its type. A PUBLISH that
        cannot be parsed ends the pass with its type. */
    method ReadAndReply(pass: Pass) returns (rc: int)
      requires Valid() && pass.incoming.Some?
      modifies this`history, this`buf, this`readbuf, this`pingOutstanding
      ensures Valid() && readbuf == pass.incoming.value
      ensures rc == if Fails(readbuf, pass.replyOk) then FAILURE else if readbuf == Undecodable(PUBLISH) then PUBLISH else SUCCESS
      ensures |history| == |old(history)| + (if NeedsAnswer(readbuf) && pass.replyOk then 2 else 1)
      ensures old(history) + [Read(readbuf)] <= history
      ensures NeedsAnswer(readbuf) && pass.replyOk ==>
        history[|history| - 1].Sent? && Answers(readbuf, history[|history| - 1].packet)
      ensures pingOutstanding == (old(pingOutstanding) && TypeOf(readbuf) != PINGRESP)
    {
      readbuf := pass.incoming.value;
      LegalAppend(history, Read(readbuf));
      history := history + [Read(readbuf)];
      rc := Reply(pass);
    }

    /** The switch of `cycle`. */
    method Reply(pass: Pass) returns (rc: int)
      requires Valid() && history != [] && history[|history| - 1] == Read(readbuf)
      modifies this`history, this`buf, this`pingOutstanding
      ensures Valid()
      ensures rc == if Fails(readbuf, pass.replyOk) then FAILURE else if readbuf == Undecodable(PUBLISH) then PUBLISH else SUCCESS
      ensures if NeedsAnswer(readbuf) && pass.replyOk
        then Answers(readbuf, buf) && history == old(history) + [Sent(buf)] else history == old(history)
      ensures pingOutstanding == (old(pingOutstanding) && TypeOf(readbuf) != PINGRESP)
    {
      rc := SUCCESS;
      if readbuf.Publish? {
        var m := readbuf.message;
        if m.qos != 0 {
          if m.qos != 1 && m.qos != 2 { return FAILURE; }
          buf := if m.qos == 1 then Puback(m.id) else Pubrec(m.id);
          rc := SendPacket(pass.replyOk);
        }
      } else if readbuf == Undecodable(PUBLISH) {
        rc := PUBLISH;
      } else if readbuf.Pubrec? {
        buf := Pubrel(readbuf.id);
        rc := SendPacket(pass.replyOk);
      } else if readbuf == Undecodable(PUBREC) {
        rc := FAILURE;
      } else if TypeOf(readbuf) == PINGRESP {
        pingOutstanding := false;
      }
    }

    /** Passes until one returns the type; running out of passes is the timer expiring. */
    method WaitFor(packetType: int, passes: seq<Pass>) returns (rc: int)
      requires Valid() && 0 < packetType < 16
      modifies this`history, this`buf, this`readbuf, this`pingOutstanding
      ensures Valid() && Extends(old(history), history)
      ensures var i := FirstReturning(passes, packetType);
        (rc == packetType <==> i < |passes|) && (i < |passes| ==> readbuf == passes[i].incoming.value)
      ensures rc == packetType ==> TypeOf(readbuf) == packetType && LastRead(history, |old(history)|, readbuf)
    {
      rc := FAILURE;
      for i := 0 to |passes|
        invariant Valid() && Extends(old(history), history) && rc != packetType
        invariant forall j :: 0 <= j < i ==> !Returns(passes[j], packetType)
      {
        ghost var before := |history|;
        rc := Cycle(passes[i]);
        if rc == packetType {
          ghost var j :| before <= j < |history| && history[j] == Read(readbuf) && forall k :: j < k < |history| ==> !history[k].Read?;
          return;
        }
      }
    }

    /** MQTTConnect. The connection opens exactly when the call returns SUCCESS. */
    method Connect(keepAlive: nat, serialised: bool, sendOk: bool, passes: seq<Pass>) returns (rc: int)
      requires Valid()
      modifies this
      ensures Valid() && old(history) <= history && nextPacketId == old(nextPacketId)
      ensures old(isconnected) ==> rc == FAILURE && isconnected && history == old(history)
      ensures !old(isconnected) ==> (isconnected <==> rc == SUCCESS)
      ensures !old(isconnected) && rc == SUCCESS ==> readbuf == Connack(0)
      ensures keepAliveInterval == (if old(isconnected) then old(keepAliveInterval) else keepAlive)
      ensures messageHandlers == old(messageHandlers) && nextPacketId.next == old(nextPacketId.next)
      ensures !(serialised && sendOk) ==> history == old(history)
      ensures var i := FirstReturning(passes, CONNACK);
        rc == if !old(isconnected) && serialised && sendOk && i < |passes| && passes[i].incoming.value.Connack?
              then passes[i].incoming.value.code else FAILURE
      ensures !old(isconnected) && serialised && sendOk ==> old(history) + [Sent(Packet.Connect)] <= history
    {
      rc := FAILURE;
      if isconnected { return; }
      keepAliveInterval := keepAlive;
      if !serialised { return; }
      rc := Handshake(sendOk, passes);
      if rc == SUCCESS {
        LegalAppend(history, Opened);
        history := history + [Opened];
        isconnected := true;
      }
    }

    /** CONNECT and the wait for CONNACK. */
    method Handshake(sendOk: bool, passes: seq<Pass>) returns (rc: int)
      requires Valid() && !isconnected
      modifies this`history, this`buf, this`readbuf, this`pingOutstanding
      ensures Valid() && old(history) <= history
      ensures var i := FirstReturning(passes, CONNACK);
        rc == if sendOk && i < |passes| && passes[i].incoming.value.Connack? then passes[i].incoming.value.code else FAILURE
      ensures if sendOk then old(history) + [Sent(Packet.Connect)] <= history else history == old(history)
      ensures rc == SUCCESS ==> readbuf == Connack(0) && HandshakeDone(history)
    {
      buf := Packet.Connect;
      rc := SendPacket(sendOk);
      if rc != SUCCESS { return; }
      ghost var i := |history| - 1;
      assert history[i] == Sent(Packet.Connect);
      var answer := WaitFor(CONNACK, passes);
      rc := if answer == CONNACK && readbuf.Connack? then readbuf.code else FAILURE;
      if rc == SUCCESS {
        assert history[i] == Sent(Packet.Connect);
        HandshakeOf(history, i, readbuf);
      }
    }

    method GetNextPacketId() returns (id: int)
      requires Valid()
      modifies nextPacketId
      ensures Valid() && id == PacketIds.Next(old(nextPacketId.next)) == nextPacketId.next && 1 <= id
    {
      id := nextPacketId.GetNext();
    }

    /** Sends a request and waits for its answer; common to the three requests below. */
    method Request(request: Packet, sendOk: bool, answerType: int, passes: seq<Pass>) returns (rc: int)
      requires Valid() && isconnected && Allowed(history, Sent(request)) && 0 < answerType < 16
      modifies this`history, this`buf, this`readbuf, this`pingOutstanding
      ensures Valid() && Extends(old(history), history)
      ensures var i := FirstReturning(passes, answerType);
        rc == (if sendOk && i < |passes| then SUCCESS else FAILURE) &&
        (rc == SUCCESS ==> readbuf == passes[i].incoming.value)
      ensures if sendOk then old(history) + [Sent(request)] <= history else history == old(history)
      ensures rc == SUCCESS ==> Answered(old(history), history, request, readbuf) && TypeOf(readbuf) == answerType
    {
      buf := request;
      rc := SendPacket(sendOk);
      if rc != SUCCESS { return; }
      ghost var i := |history| - 1;
      assert history[i] == Sent(request);
      var answer := WaitFor(answerType, passes);
      if answer == answerType {
        assert history[i] == Sent(request);
        return SUCCESS;
      }
      rc := FAILURE;
    }

    /** MQTTSubscribe. */
    method Subscribe(topicFilter: string, qos: nat, fp: nat, serialised: bool, sendOk: bool, passes: seq<Pass>)
      returns (rc: int)
      requires Valid()
      modifies this, nextPacketId
      ensures Valid() && Extends(old(history), history) && isconnected == old(isconnected)
      ensures !old(isconnected) ==> rc == FAILURE && history == old(history)
      ensures var i, free := FirstReturning(passes, SUBACK), FirstSlot(old(messageHandlers), None);
        var answered := old(isconnected) && serialised && sendOk && i < |passes|;
        (!answered ==> rc == FAILURE && messageHandlers == old(messageHandlers)) &&
        (answered && passes[i].incoming.value.Suback? && passes[i].incoming.value.granted == 0x80 ==>
          rc == 0x80 && messageHandlers == old(messageHandlers)) &&
        (answered && passes[i].incoming.value.Suback? && passes[i].incoming.value.granted != 0x80 ==>
          rc == if free < |old(messageHandlers)| then SUCCESS else passes[i].incoming.value.granted) &&
        (answered && !passes[i].incoming.value.Suback? ==> rc == SUCCESS)
      ensures rc == SUCCESS && FirstSlot(old(messageHandlers), None) < |old(messageHandlers)| ==>
        messageHandlers == old(messageHandlers)[FirstSlot(old(messageHandlers), None) := Handler(Some(topicFilter), Some(fp))]
      ensures rc == SUCCESS && FirstSlot(old(messageHandlers), None) == |old(messageHandlers)| ==>
        messageHandlers == old(messageHandlers)
      ensures if old(isconnected) && serialised && sendOk
        then old(history) + [Sent(Packet.Subscribe(nextPacketId.next, topicFilter, qos))] <= history
        else history == old(history)
      ensures keepAliveInterval == old(keepAliveInterval) && nextPacketId == old(nextPacketId)
      ensures nextPacketId.next == if isconnected then PacketIds.Next(old(nextPacketId.next)) else old(nextPacketId.next)
      ensures rc == SUCCESS ==> TypeOf(readbuf) == SUBACK && Answered(old(history), history,
        Packet.Subscribe(PacketIds.Next(old(nextPacketId.next)), topicFilter, qos), readbuf)
    {
      if !isconnected { return FAILURE; }
      var id := GetNextPacketId();
      if !serialised { return FAILURE; }
      rc := Request(Packet.Subscribe(id, topicFilter, qos), sendOk, SUBACK, passes);
      if rc == SUCCESS {
        if readbuf.Suback? { rc := readbuf.granted; }
        if rc != 0x80 {
          var i := 0;
          while i < |messageHandlers|
            invariant i <= |messageHandlers| && messageHandlers == old(messageHandlers)
            invariant forall j :: 0 <= j < i ==> messageHandlers[j].topicFilter != None
          {
            if messageHandlers[i].topicFilter == None {
              assert FirstSlot(messageHandlers, None) == i;
              messageHandlers := messageHandlers[i := Handler(Some(topicFilter), Some(fp))];
              return 0;
            }
            i := i + 1;
          }
        }
      }
    }

    /** MQTTUnsubscribe. */
    method Unsubscribe(topicFilter: string, serialised: bool, sendOk: bool, passes: seq<Pass>) returns (rc: int)
      requires Valid()
      modifies this, nextPacketId
      ensures Valid() && Extends(old(history), history) && isconnected == old(isconnected)
      ensures !old(isconnected) ==> rc == FAILURE && history == old(history)
      ensures rc == if old(isconnected) && serialised && sendOk && FirstReturning(passes, UNSUBACK) < |passes|
        then SUCCESS else FAILURE
      ensures if old(isconnected) && serialised && sendOk
        then old(history) + [Sent(Packet.Unsubscribe(nextPacketId.next, topicFilter))] <= history
        else history == old(history)
      ensures keepAliveInterval == old(keepAliveInterval) && messageHandlers == old(messageHandlers)
      ensures nextPacketId == old(nextPacketId) &&
        nextPacketId.next == if isconnected then PacketIds.Next(old(nextPacketId.next)) else old(nextPacketId.next)
      ensures rc == SUCCESS ==> TypeOf(readbuf) == UNSUBACK && Answered(old(history), history,
        Packet.Unsubscribe(PacketIds.Next(old(nextPacketId.next)), topicFilter), readbuf)
    {
      if !isconnected { return FAILURE; }
      var id := GetNextPacketId();
      if !serialised { return FAILURE; }
      rc := Request(Packet.Unsubscribe(id, topicFilter), sendOk, UNSUBACK, passes);
    }

    /** MQTTPublish. A message of QoS 0 is not answered, the others are. */
    method Publish(message: Message, serialised: bool, sendOk: bool, passes: seq<Pass>) returns (rc: int, sent: Message)
      requires Valid() && message.qos <= 2
      modifies this, nextPacketId
      ensures Valid() && Extends(old(history), history) && isconnected == old(isconnected)
      ensures !old(isconnected) ==> rc == FAILURE && history == old(history)
      ensures old(isconnected) ==>
        sent == if message.qos == 0 then message else message.(id := PacketIds.Next(old(nextPacketId.next)))
      ensures if old(isconnected) && serialised && sendOk
        then old(history) + [Sent(Packet.Publish(sent))] <= history else history == old(history)
      ensures keepAliveInterval == old(keepAliveInterval) && messageHandlers == old(messageHandlers)
      ensures nextPacketId == old(nextPacketId) &&
        nextPacketId.next == if isconnected && message.qos > 0 then PacketIds.Next(old(nextPacketId.next)) else old(nextPacketId.next)
      ensures message.qos == 0 ==> rc == if old(isconnected) && serialised && sendOk then SUCCESS else FAILURE
      ensures message.qos > 0 ==>
        var i := FirstReturning(passes, if message.qos == 1 then PUBACK else PUBCOMP);
        rc == if old(isconnected) && serialised && sendOk && i < |passes| && !passes[i].incoming.value.Undecodable?
          then SUCCESS else FAILURE
      ensures rc == SUCCESS && message.qos == 0 ==> history == old(history) + [Sent(Packet.Publish(sent))]
      ensures rc == SUCCESS && message.qos > 0 ==> Answered(old(history), history, Packet.Publish(sent), readbuf)
      ensures rc == SUCCESS && message.qos == 1 ==> readbuf.Puback?
      ensures rc == SUCCESS && message.qos == 2 ==> readbuf.Pubcomp?
    {
      sent := message;
      if !isconnected { return FAILURE, sent; }
      if message.qos == 1 || message.qos == 2 {
        var id := GetNextPacketId();
        sent := message.(id := id);
      }
      if !serialised { return FAILURE, sent; }
      if message.qos == 0 {
        buf := Packet.Publish(sent);
        rc := SendPacket(sendOk);
      } else {
        rc := Request(Packet.Publish(sent), sendOk, if message.qos == 1 then PUBACK else PUBCOMP, passes);
        if rc == SUCCESS && !readbuf.Puback? && !readbuf.Pubcomp? { rc := FAILURE; }
      }
    }

    /** MQTTDisconnect: the connection is closed whether or not the packet goes out. */
    method Disconnect(serialised: bool, sendOk: bool) returns (rc: int)
      requires Valid()
      modifies this
      ensures Valid() && !isconnected && nextPacketId == old(nextPacketId)
      ensures messageHandlers == old(messageHandlers) && keepAliveInterval == old(keepAliveInterval)
      ensures rc == if serialised && sendOk then SUCCESS else FAILURE
      ensures history == old(history) + (if rc == SUCCESS then [Sent(Packet.Disconnect)] else []) + [Closed]
    {
      rc := FAILURE;
      if serialised {
        buf := Packet.Disconnect;
        rc := SendPacket(sendOk);
      }
      LegalAppend(history, Closed);
      history := history + [Closed];
      isconnected := false;
    }
  }

  /** After `before`, the request went out, and the last packet read since then is `answer`. */
  predicate Answered(before: seq<Event>, h: seq<Event>, request: Packet, answer: Packet) {
    |before| <= |h| && exists i :: |before| <= i < |h| && h[i] == Sent(request) && LastRead(h, i + 1, answer)
  }

  lemma HandshakeOf(h: seq<Event>, i: nat, answer: Packet)
    requires i < |h| && h[i] == Sent(Connect) && answer == Connack(0) && LastRead(h, i + 1, answer)
    requires forall k :: i < k < |h| ==> !h[k].Opened? && !h[k].Closed?
    ensures HandshakeDone(h)
  {
  }
}
