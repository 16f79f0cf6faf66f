/** What passes of `cycle` come to: deliveries, acknowledgements and pings, counted over whole runs. */
module PassLaws {
  import opened MqttPackets
  import opened MbedClient
  import opened Collections

  // ---------- deliveries ----------

  /** The messages whose QoS is not 2, in order. */
  function Ordinary(ms: seq<Message>): seq<Message> {
    if ms == [] then []
    else Ordinary(ms[..|ms| - 1]) + if ms[|ms| - 1].qos != 2 then [ms[|ms| - 1]] else []
  }

  /** The messages of QoS other than 2 that arrive, in order. */
  function Arriving(passes: seq<Pass>): seq<Message> {
    if passes == [] then []
    else
      (if IsPublish(passes[0].incoming) && passes[0].incoming.packet.message.qos != 2
       then [passes[0].incoming.packet.message] else []) + Arriving(passes[1..])
  }

  /** Over every run of passes, the messages of QoS other than 2 that are delivered are exactly those
      that arrive, each once and in order, whatever happens to the acknowledgements. */
  lemma {:induction false} OrdinaryDelivered(s: State, passes: seq<Pass>)
    ensures Ordinary(Passes(s, passes).deliveries) == Ordinary(s.deliveries) + Arriving(passes)
    decreases |passes|
  {
    if passes != [] {
      var pass := passes[0];
      var s' := Cycle(s, pass.incoming, pass.env).state;
      CycleLaws(s, pass.incoming, pass.env);
      if IsPublish(pass.incoming) { OrdinaryOneMore(s.deliveries, pass.incoming.packet.message); }
      assert s.deliveries + [] == s.deliveries;
      OrdinaryDelivered(s', passes[1..]);
      var now := Arriving(passes[..1]);
      assert passes[..1][1..] == [] && now + [] == now;
      Assoc(Ordinary(s.deliveries), now, Arriving(passes[1..]));
    }
  }

  lemma OrdinaryOneMore(ms: seq<Message>, m: Message)
    ensures Ordinary(ms + [m]) == Ordinary(ms) + if m.qos != 2 then [m] else []
  {
    assert (ms + [m])[..|ms|] == ms;
  }

  /** A PUBACK acknowledges the message that the same pass has delivered, and only that. */
  lemma PubackMeansDelivered(s: State, pass: Pass, id: nat)
    ensures var o := Cycle(s, pass.incoming, pass.env);
      Puback(id) in o.sent <==>
        IsPublish(pass.incoming) && pass.incoming.packet.message.qos == 1 && pass.incoming.packet.message.id == id &&
        pass.env.sendOk && o.state.deliveries == s.deliveries + [pass.incoming.packet.message]
  {
    CycleLaws(s, pass.incoming, pass.env);
  }

  // ---------- pings ----------

  /** Everything sent by a run of passes. */
  function SentBy(s: State, passes: seq<Pass>): seq<Packet>
    decreases |passes|
  {
    if passes == [] then []
    else
      var o := Cycle(s, passes[0].incoming, passes[0].env);
      o.sent + SentBy(o.state, passes[1..])
  }

  function Count(ps: seq<Packet>, p: Packet): nat {
    if ps == [] then 0 else (if ps[0] == p then 1 else 0) + Count(ps[1..], p)
  }

  lemma {:induction false} CountAppend(ps: seq<Packet>, qs: seq<Packet>, p: Packet)
    ensures Count(ps + qs, p) == Count(ps, p) + Count(qs, p)
  {
    if ps == [] {
      assert ps + qs == qs;
    } else {
      assert (ps + qs)[1..] == ps[1..] + qs;
      CountAppend(ps[1..], qs, p);
    }
  }

  function Responses(passes: seq<Pass>): nat {
    if passes == [] then 0 else (if IsPingresp(passes[0].incoming) then 1 else 0) + Responses(passes[1..])
  }

  /** A pass sends at most one ping, and that when it should. */
  lemma PingsOfPass(s: State, incoming: Incoming, env: Env)
    ensures Count(Cycle(s, incoming, env).sent, Pingreq) ==
      if PassPings(incoming, env, s.keepAliveInterval, s.pingOutstanding) then 1 else 0
  {
    CycleLaws(s, incoming, env);
    var sent := Cycle(s, incoming, env).sent;
    assert |sent| > 0 ==> Count(sent, Pingreq) == (if sent[0] == Pingreq then 1 else 0) + Count(sent[1..], Pingreq);
    assert |sent| > 1 ==> Count(sent[1..], Pingreq) == (if sent[1] == Pingreq then 1 else 0) + Count(sent[2..], Pingreq) by {
      if |sent| > 1 { assert sent[1..][1..] == sent[2..]; }
    }
  }

  /** Every ping but the last has been answered before the next goes out; with the keep-alive switched
      off there are none. */
  lemma {:induction false} PingsAwaitResponses(s: State, passes: seq<Pass>)
    ensures Count(SentBy(s, passes), Pingreq) + (if s.pingOutstanding then 1 else 0) <=
      Responses(passes) + if Passes(s, passes).pingOutstanding then 1 else 0
    ensures s.keepAliveInterval == 0 ==> Count(SentBy(s, passes), Pingreq) == 0
    decreases |passes|
  {
    if passes != [] {
      var pass := passes[0];
      var o := Cycle(s, pass.incoming, pass.env);
      CycleLaws(s, pass.incoming, pass.env);
      PingsOfPass(s, pass.incoming, pass.env);
      CountAppend(o.sent, SentBy(o.state, passes[1..]), Pingreq);
      PingsAwaitResponses(o.state, passes[1..]);
    }
  }

  /** What a wait sends is what its passes send. */
  lemma {:induction false} WaitSends(s: State, packetType: int, passes: seq<Pass>) returns (n: nat)
    requires packetType > 0
    ensures n <= |passes| && Wait(s, packetType, passes).state == Passes(s, passes[..n])
    ensures Wait(s, packetType, passes).sent == SentBy(s, passes[..n])
    decreases |passes|
  {
    if passes == [] { return 0; }
    var o := Cycle(s, passes[0].incoming, passes[0].env);
    if o.rc == packetType {
      n := 1;
      assert passes[..1][1..] == [] && o.sent + [] == o.sent;
      assert SentBy(o.state, []) == [];
      OnePass(s, passes, 1);
      assert passes[1..][..0] == [];
      return;
    }
    var n' := WaitSends(o.state, packetType, passes[1..]);
    n := n' + 1;
    OnePass(s, passes, n);
    assert passes[..n][1..] == passes[1..][..n'];
  }
}
