/** QoS 2 receipt (section 4.3.3 of MQTT 3.1.1): a broker, two FIFO channels and the mbed client.
    The client's step is `MbedClient.Cycle`, the function its `cycle` method is proved against. */
module Qos2Protocol {
  import opened MqttPackets
  import opened MbedClient
  import opened Qos2Ids
  import opened Collections

  /** A QoS 2 publication the broker has not finished: waiting for PUBREC, then for PUBCOMP. */
  datatype Pending = Published(message: Message) | Released(message: Message)

  /** `next` is the tag of the next publication; `completed` holds the tags whose PUBCOMP arrived. */
  datatype System = System(
    broker: map<nat, Pending>,
    next: nat,
    completed: set<nat>,
    toClient: seq<Packet>,
    toBroker: seq<Packet>,
    client: State)

  /** The steps. The broker may resend an unacknowledged packet at any time, and may send anything
      else that is not part of QoS 2 receipt. A reconnect empties both channels. DropSession is the
      client's cleanSession: it forgets the stored identifiers. */
  datatype Action =
    | BrokerPublish(id: nat, topic: string, payload: string)
    | BrokerResend(id: nat)
    | BrokerOther(packet: Packet)
    | BrokerReceive
    | ClientCycle(env: Env)
    | ClientCycleEmpty(env: Env)
    | Reconnect
    | DropSession

  function Init(slots: nat, keepAlive: nat): System {
    System(map[], 0, {}, [], [], State(seq(slots, _ => 0), [], false, keepAlive))
  }

  function Packets(p: Pending): Packet {
    if p.Published? then Publish(p.message) else Pubrel(p.message.id)
  }

  /** The broker's reaction to one packet. */
  function BrokerHandle(s: System, p: Packet): System {
    match p
    case Pubrec(id) =>
      if id !in s.broker then s
      else s.(broker := s.broker[id := Released(s.broker[id].message)], toClient := s.toClient + [Pubrel(id)])
    case Pubcomp(id) =>
      if id in s.broker && s.broker[id].Released?
      then s.(broker := s.broker - {id}, completed := s.completed + {s.broker[id].message.tag})
      else s
    case _ => s
  }

  function ClientHandle(s: System, incoming: Incoming, env: Env): System {
    var o := Cycle(s.client, incoming, env);
    s.(client := o.state, toBroker := s.toBroker + o.sent)
  }

  predicate IsReceipt(p: Packet) {
    p.Pubrel? || (p.Publish? && p.message.qos == 2)
  }

  /** One step; an action that is not enabled changes nothing. */
  function Next(s: System, a: Action): System {
    match a
    case BrokerPublish(id, topic, payload) =>
      if id == 0 || id in s.broker then s
      else
        var m := Message(2, id, topic, payload, s.next);
        s.(broker := s.broker[id := Published(m)], next := s.next + 1, toClient := s.toClient + [Publish(m)])
    case BrokerResend(id) =>
      if id in s.broker then s.(toClient := s.toClient + [Packets(s.broker[id])]) else s
    case BrokerOther(p) =>
      if IsReceipt(p) then s else s.(toClient := s.toClient + [p])
    case BrokerReceive =>
      if s.toBroker == [] then s else BrokerHandle(s.(toBroker := s.toBroker[1..]), s.toBroker[0])
    case ClientCycle(env) =>
      if s.toClient == [] then s
      else ClientHandle(s.(toClient := s.toClient[1..]), Received(s.toClient[0]), env)
    case ClientCycleEmpty(env) => ClientHandle(s, Nothing, env)
    case Reconnect => s.(toClient := [], toBroker := [])
    case DropSession => s.(client := s.client.(ids := seq(|s.client.ids|, _ => 0)))
  }

  function Run(s: System, actions: seq<Action>): System
    decreases |actions|
  {
    if actions == [] then s else Run(Next(s, actions[0]), actions[1..])
  }

  predicate KeepsSession(actions: seq<Action>) {
    DropSession !in actions
  }

  /** At every moment of the run the broker has at most as many publications in flight as the
      client has slots. */
  predicate FitsTable(s: System, actions: seq<Action>)
    decreases |actions|
  {
    |s.broker| <= |s.client.ids| && (actions == [] || FitsTable(Next(s, actions[0]), actions[1..]))
  }

  /** How often the QoS 2 publication `tag` was handed to deliverMessage. */
  function Deliveries(ms: seq<Message>, tag: nat): nat {
    if ms == [] then 0
    else Deliveries(ms[..|ms| - 1], tag) + if ms[|ms| - 1].qos == 2 && ms[|ms| - 1].tag == tag then 1 else 0
  }

  // ---------- one identifier's view of the system ----------

  /** The packets of a channel to the client that concern the receipt of `id`. */
  function Inbound(ps: seq<Packet>, id: nat): seq<Packet> {
    if ps == [] then [] else InboundOne(ps[0], id) + Inbound(ps[1..], id)
  }

  function InboundOne(p: Packet, id: nat): seq<Packet> {
    if Concerns(p, id) then [p] else []
  }

  predicate Concerns(p: Packet, id: nat) {
    (p.Pubrel? && p.id == id) || (p.Publish? && p.message.qos == 2 && p.message.id == id)
  }

  /** The acknowledgements of `id` in a channel to the broker. */
  function Outbound(ps: seq<Packet>, id: nat): seq<Packet> {
    if ps == [] then [] else OutboundOne(ps[0], id) + Outbound(ps[1..], id)
  }

  function OutboundOne(p: Packet, id: nat): seq<Packet> {
    if Acknowledges(p, id) then [p] else []
  }

  predicate Acknowledges(p: Packet, id: nat) {
    (p.Pubrec? || p.Pubcomp?) && p.id == id
  }

  lemma {:induction false} InboundAppend(ps: seq<Packet>, qs: seq<Packet>, id: nat)
    ensures Inbound(ps + qs, id) == Inbound(ps, id) + Inbound(qs, id)
  {
    if ps == [] {
      assert ps + qs == qs;
    } else {
      assert (ps + qs)[1..] == ps[1..] + qs;
      InboundAppend(ps[1..], qs, id);
      assert Inbound(ps + qs, id) == InboundOne(ps[0], id) + Inbound(ps[1..] + qs, id);
    }
  }

  lemma {:induction false} OutboundAppend(ps: seq<Packet>, qs: seq<Packet>, id: nat)
    ensures Outbound(ps + qs, id) == Outbound(ps, id) + Outbound(qs, id)
  {
    if ps == [] {
      assert ps + qs == qs;
    } else {
      assert (ps + qs)[1..] == ps[1..] + qs;
      OutboundAppend(ps[1..], qs, id);
      assert Outbound(ps + qs, id) == OutboundOne(ps[0], id) + Outbound(ps[1..] + qs, id);
    }
  }

  predicate HasPublish(f: seq<Packet>) { exists i :: 0 <= i < |f| && f[i].Publish? }
  predicate HasPubrel(f: seq<Packet>) { exists i :: 0 <= i < |f| && f[i].Pubrel? }
  predicate HasPubrec(g: seq<Packet>) { exists i :: 0 <= i < |g| && g[i].Pubrec? }
  predicate HasPubcomp(g: seq<Packet>) { exists i :: 0 <= i < |g| && g[i].Pubcomp? }

  /** Old PUBRELs, then copies of the publication `m`. */
  predicate PubrelsThenPublishes(f: seq<Packet>, m: Message) {
    (forall i :: 0 <= i < |f| ==> f[i].Pubrel? || f[i] == Publish(m)) &&
    forall i, j :: 0 <= i < j < |f| && f[i].Publish? ==> f[j].Publish?
  }

  predicate PublishesThenPubrels(f: seq<Packet>, m: Message) {
    (forall i :: 0 <= i < |f| ==> f[i].Pubrel? || f[i] == Publish(m)) &&
    forall i, j :: 0 <= i < j < |f| && f[i].Pubrel? ==> f[j].Pubrel?
  }

  predicate PubcompsThenPubrecs(g: seq<Packet>) {
    forall i, j :: 0 <= i < j < |g| && g[i].Pubrec? ==> !g[j].Pubcomp?
  }

  predicate PubrecsThenPubcomps(g: seq<Packet>) {
    forall i, j :: 0 <= i < j < |g| && g[i].Pubcomp? ==> !g[j].Pubrec?
  }

  /** `known`: an entry of the broker; `stored`: in the client's table; `count`: deliveries of its message. */
  datatype View = View(known: bool, pending: Pending, f: seq<Packet>, g: seq<Packet>, stored: bool, count: nat)

  /** What every step keeps, for one identifier. */
  predicate ViewInv(v: View) {
    if !v.known then
      !HasPublish(v.f) && !HasPubrec(v.g) && !v.stored
    else if v.pending.Published? then
      PubrelsThenPublishes(v.f, v.pending.message) && PubcompsThenPubrecs(v.g) &&
      (HasPubrec(v.g) || v.stored ==> !HasPubrel(v.f)) &&
      v.count == if v.stored then 1 else 0
    else
      PublishesThenPubrels(v.f, v.pending.message) && PubrecsThenPubcomps(v.g) && v.count <= 1 &&
      (HasPubcomp(v.g) ==> !HasPublish(v.f)) &&
      (v.stored ==> v.count == 1 && !HasPubcomp(v.g)) &&
      (!v.stored && v.count == 1 ==> !HasPublish(v.f))
  }

  /** What holds besides while the table never runs out of slots. */
  predicate ViewLive(v: View) {
    v.known ==>
      if v.pending.Published? then HasPubrec(v.g) ==> v.stored else v.count == 1
  }

  ghost function ViewOf(s: System, id: nat): View {
    var p := if id in s.broker then s.broker[id] else Published(Message(2, id, "", "", 0));
    View(id in s.broker, p, Inbound(s.toClient, id), Outbound(s.toBroker, id),
         id in s.client.ids, if id in s.broker then Deliveries(s.client.deliveries, p.message.tag) else 0)
  }

  /** The bookkeeping around the views: whose tag is whose. */
  ghost predicate Inv(s: System) {
    Distinct(s.client.ids) && 0 !in s.broker &&
    (forall id :: id in s.broker ==>
      s.broker[id].message.id == id && s.broker[id].message.qos == 2 && s.broker[id].message.tag < s.next &&
      s.broker[id].message.tag !in s.completed) &&
    (forall id, id' :: id in s.broker && id' in s.broker && id != id' ==>
      s.broker[id].message.tag != s.broker[id'].message.tag) &&
    (forall t :: t in s.completed ==> t < s.next) &&
    (forall t :: Deliveries(s.client.deliveries, t) <= 1) &&
    (forall t :: t >= s.next ==> Deliveries(s.client.deliveries, t) == 0)
  }

  ghost predicate AllViews(s: System) {
    forall id :: id != 0 ==> ViewInv(ViewOf(s, id))
  }

  ghost predicate Live(s: System) {
    (forall id :: id != 0 ==> ViewLive(ViewOf(s, id))) &&
    (forall t :: t in s.completed ==> Deliveries(s.client.deliveries, t) == 1)
  }

  // ---------- the steps of one view ----------

  lemma ViewNewPublish(v: View, m: Message, v': View)
    requires ViewInv(v) && !v.known && forall i :: 0 <= i < |v.f| ==> v.f[i].Publish? || v.f[i].Pubrel?
    requires v' == v.(known := true, pending := Published(m), f := v.f + [Publish(m)], count := 0)
    ensures ViewInv(v') && ViewLive(v')
  {
  }

  lemma ViewResend(v: View, p: Packet, v': View)
    requires ViewInv(v) && v.known
    requires p == Packets(v.pending) && v' == v.(f := v.f + [p])
    ensures ViewInv(v') && (ViewLive(v) ==> ViewLive(v'))
  {
    if v.pending.Published? && HasPubrel(v'.f) {
      var i :| 0 <= i < |v'.f| && v'.f[i].Pubrel?;
      assert v.f[i].Pubrel?;
    }
    if !v.pending.Published? && HasPublish(v'.f) {
      var i :| 0 <= i < |v'.f| && v'.f[i].Publish?;
      assert v.f[i].Publish?;
    }
  }

  /** PUBREC for a known identifier: the broker answers PUBREL and waits for PUBCOMP. */
  lemma ViewPubrec(v: View, rel: Packet, v': View)
    requires ViewInv(v) && v.g != [] && v.g[0].Pubrec? && rel.Pubrel?
    requires v' == v.(pending := Released(v.pending.message), f := v.f + [rel], g := v.g[1..])
    ensures v.known && ViewInv(v') && (ViewLive(v) ==> ViewLive(v'))
  {
    assert HasPubrec(v.g);
    assert forall i :: 0 <= i < |v'.g| ==> v'.g[i] == v.g[i + 1];
    if HasPublish(v'.f) {
      var i :| 0 <= i < |v'.f| && v'.f[i].Publish?;
      assert v.f[i].Publish?;
    }
    if HasPubcomp(v'.g) {
      var i :| 0 <= i < |v'.g| && v'.g[i].Pubcomp?;
      assert v.g[i + 1].Pubcomp?;
    }
    if v.pending.Published? {
      assert !HasPubrel(v.f);
    }
  }

  /** PUBCOMP while waiting for it: the identifier is free again; otherwise it is stale. */
  lemma ViewPubcomp(v: View, v': View)
    requires ViewInv(v) && v.g != [] && v.g[0].Pubcomp?
    requires v' == v.(known := v.known && v.pending.Published?, g := v.g[1..])
    ensures ViewInv(v') && (ViewLive(v) ==> ViewLive(v'))
  {
    assert HasPubcomp(v.g);
    assert forall i :: 0 <= i < |v'.g| ==> v'.g[i] == v.g[i + 1];
    if HasPubrec(v'.g) {
      var i :| 0 <= i < |v'.g| && v'.g[i].Pubrec?;
      assert v.g[i + 1].Pubrec?;
    }
  }

  /** The client takes a PUBLISH. `room`: the message was delivered and its identifier stored. */
  lemma ViewTakePublish(v: View, m: Message, room: bool, reply: seq<Packet>, v': View)
    requires ViewInv(v) && v.f != [] && v.f[0] == Publish(m)
    requires reply == [] || (|reply| == 1 && reply[0].Pubrec?)
    requires v.stored ==> !room
    requires v' == v.(f := v.f[1..], g := v.g + reply, stored := v.stored || room, count := v.count + if room then 1 else 0)
    ensures v.known && m == v.pending.message && ViewInv(v')
    ensures room ==> v.count == 0
    ensures ViewLive(v) && (room || v.stored) ==> ViewLive(v')
    ensures ViewLive(v) && v.pending.Released? ==> v.stored
  {
    assert HasPublish(v.f);
    assert forall i :: 0 <= i < |v'.f| ==> v'.f[i] == v.f[i + 1];
    if HasPublish(v'.f) {
      var i :| 0 <= i < |v'.f| && v'.f[i].Publish?;
      assert v.f[i + 1].Publish?;
    }
    if HasPubrel(v'.f) {
      var i :| 0 <= i < |v'.f| && v'.f[i].Pubrel?;
      assert v.f[i + 1].Pubrel?;
    }
    if HasPubcomp(v'.g) {
      var i :| 0 <= i < |v'.g| && v'.g[i].Pubcomp?;
      assert v.g[i].Pubcomp?;
    }
  }

  /** The client takes a PUBREL: it frees the identifier once its PUBCOMP has gone out. */
  lemma ViewTakePubrel(v: View, reply: seq<Packet>, v': View)
    requires ViewInv(v) && v.f != [] && v.f[0].Pubrel?
    requires reply == [] || (|reply| == 1 && reply[0].Pubcomp?)
    requires v' == v.(f := v.f[1..], g := v.g + reply, stored := v.stored && reply == [])
    ensures ViewInv(v') && (ViewLive(v) ==> ViewLive(v'))
  {
    assert HasPubrel(v.f);
    assert forall i :: 0 <= i < |v'.f| ==> v'.f[i] == v.f[i + 1];
    if HasPublish(v'.f) {
      var i :| 0 <= i < |v'.f| && v'.f[i].Publish?;
      assert v.f[i + 1].Publish?;
    }
    if HasPubrel(v'.f) {
      var i :| 0 <= i < |v'.f| && v'.f[i].Pubrel?;
      assert v.f[i + 1].Pubrel?;
    }
    if HasPubrec(v'.g) {
      var i :| 0 <= i < |v'.g| && v'.g[i].Pubrec?;
      assert v.g[i].Pubrec?;
    }
    if HasPubcomp(v'.g) && reply == [] {
      var i :| 0 <= i < |v'.g| && v'.g[i].Pubcomp?;
      assert v.g[i].Pubcomp?;
    }
  }

  lemma ViewReconnect(v: View)
    requires ViewInv(v)
    ensures ViewInv(v.(f := [], g := [])) && (ViewLive(v) ==> ViewLive(v.(f := [], g := [])))
  {
  }

  // ---------- what one pass of cycle does to receipts ----------

  lemma DeliveriesAppend(ms: seq<Message>, m: Message, tag: nat)
    ensures Deliveries(ms + [m], tag) == Deliveries(ms, tag) + if m.qos == 2 && m.tag == tag then 1 else 0
  {
    assert (ms + [m])[..|ms|] == ms;
  }

  lemma OutboundShort(p: Packet, id: nat)
    ensures Outbound([p], id) == Outbound([p] + [Pingreq], id) == if Acknowledges(p, id) then [p] else []
    ensures Outbound([], id) == Outbound([] + [Pingreq], id) == []
  {
    assert ([p] + [Pingreq])[1..] == [Pingreq] && [Pingreq][1..] == [] && [p][1..] == [];
    assert Outbound([Pingreq], id) == [];
  }

  lemma CyclePublish(c: State, m: Message, env: Env)
    requires m.qos == 2
    ensures var o := Cycle(c, Received(Publish(m)), env);
      o.state.ids == Accept(c, m).ids && o.state.deliveries == Accept(c, m).deliveries &&
      forall id :: Outbound(o.sent, id) == if env.sendOk && id == m.id then [Pubrec(m.id)] else []
  {
    var o := Cycle(c, Received(Publish(m)), env);
    forall id ensures Outbound(o.sent, id) == if env.sendOk && id == m.id then [Pubrec(m.id)] else [] {
      OutboundShort(Pubrec(m.id), id);
    }
  }

  lemma CyclePubrel(c: State, id: nat, env: Env)
    ensures var o := Cycle(c, Received(Pubrel(id)), env);
      o.state.ids == (if env.sendOk then Free(c.ids, id) else c.ids) && o.state.deliveries == c.deliveries &&
      forall k :: Outbound(o.sent, k) == if env.sendOk && k == id then [Pubcomp(id)] else []
  {
    var o := Cycle(c, Received(Pubrel(id)), env);
    forall k ensures Outbound(o.sent, k) == if env.sendOk && k == id then [Pubcomp(id)] else [] {
      OutboundShort(Pubcomp(id), k);
    }
  }

  lemma {:induction false} OutboundNone(ps: seq<Packet>, id: nat)
    requires forall i :: 0 <= i < |ps| ==> !ps[i].Pubrec? && !ps[i].Pubcomp?
    ensures Outbound(ps, id) == []
  {
    if ps != [] { OutboundNone(ps[1..], id); }
  }

  lemma CycleOther(c: State, incoming: Incoming, env: Env)
    requires incoming.Received? ==> !IsReceipt(incoming.packet)
    ensures var o := Cycle(c, incoming, env);
      o.state.ids == c.ids &&
      (forall t :: Deliveries(o.state.deliveries, t) == Deliveries(c.deliveries, t)) &&
      forall id :: Outbound(o.sent, id) == []
  {
    var o := Cycle(c, incoming, env);
    OtherSent(c, incoming, env);
    forall id ensures Outbound(o.sent, id) == [] { OutboundNone(o.sent, id); }
    forall t ensures Deliveries(o.state.deliveries, t) == Deliveries(c.deliveries, t) {
      if o.state.deliveries != c.deliveries {
        DeliveriesAppend(c.deliveries, incoming.packet.message, t);
      }
    }
  }

  lemma OtherSent(c: State, incoming: Incoming, env: Env)
    requires incoming.Received? ==> !IsReceipt(incoming.packet)
    ensures var o := Cycle(c, incoming, env);
      o.state.ids == c.ids &&
      (forall i :: 0 <= i < |o.sent| ==> !o.sent[i].Pubrec? && !o.sent[i].Pubcomp?) &&
      (o.state.deliveries == c.deliveries || (incoming.Received? && incoming.packet.Publish? &&
        incoming.packet.message.qos != 2 && o.state.deliveries == c.deliveries + [incoming.packet.message]))
  {
    if incoming.Received? { CycleIsSwitch(c, incoming.packet, env); }
  }

  // ---------- every step keeps the invariant ----------

  lemma {:induction false} InboundKinds(ps: seq<Packet>, id: nat)
    ensures forall i :: 0 <= i < |Inbound(ps, id)| ==> Concerns(Inbound(ps, id)[i], id)
  {
    if ps != [] { InboundKinds(ps[1..], id); }
  }

  lemma StepBrokerPublish(s: System, id: nat, topic: string, payload: string)
    requires Inv(s) && AllViews(s) && id != 0 && id !in s.broker
    ensures var s' := Next(s, BrokerPublish(id, topic, payload));
      Inv(s') && AllViews(s') && (Live(s) ==> Live(s'))
  {
    var m := Message(2, id, topic, payload, s.next);
    var s' := Next(s, BrokerPublish(id, topic, payload));
    forall k: nat | k != 0 ensures ViewInv(ViewOf(s', k)) && (ViewLive(ViewOf(s, k)) ==> ViewLive(ViewOf(s', k))) {
      InboundAppend(s.toClient, [Publish(m)], k);
      InboundKinds(s.toClient, k);
      assert ViewInv(ViewOf(s, k));
      if k == id {
        ViewNewPublish(ViewOf(s, k), m, ViewOf(s', k));
      } else {
        assert Inbound([Publish(m)], k) == [];
        assert ViewOf(s', k) == ViewOf(s, k);
      }
    }
  }

  lemma StepBrokerResend(s: System, id: nat)
    requires Inv(s) && AllViews(s) && id in s.broker
    ensures var s' := Next(s, BrokerResend(id));
      Inv(s') && AllViews(s') && (Live(s) ==> Live(s'))
  {
    var p := Packets(s.broker[id]);
    var s' := Next(s, BrokerResend(id));
    forall k: nat | k != 0 ensures ViewInv(ViewOf(s', k)) && (ViewLive(ViewOf(s, k)) ==> ViewLive(ViewOf(s', k))) {
      InboundAppend(s.toClient, [p], k);
      assert ViewInv(ViewOf(s, k));
      if k == id {
        ViewResend(ViewOf(s, k), p, ViewOf(s', k));
      } else {
        assert Inbound([p], k) == [];
        assert ViewOf(s', k) == ViewOf(s, k);
      }
    }
  }

  lemma StepBrokerOther(s: System, p: Packet)
    requires Inv(s) && AllViews(s) && !IsReceipt(p)
    ensures var s' := Next(s, BrokerOther(p));
      Inv(s') && AllViews(s') && (Live(s) ==> Live(s'))
  {
    var s' := Next(s, BrokerOther(p));
    forall k: nat | k != 0 ensures ViewOf(s', k) == ViewOf(s, k) {
      InboundAppend(s.toClient, [p], k);
      assert Inbound([p], k) == [];
    }
  }

  lemma StepPubrec(s: System, id: nat)
    requires Inv(s) && AllViews(s) && s.toBroker != [] && s.toBroker[0] == Pubrec(id) && id in s.broker
    ensures var s' := Next(s, BrokerReceive);
      Inv(s') && AllViews(s') && (Live(s) ==> Live(s'))
  {
    var s' := Next(s, BrokerReceive);
    forall k: nat | k != 0 ensures ViewInv(ViewOf(s', k)) && (ViewLive(ViewOf(s, k)) ==> ViewLive(ViewOf(s', k))) {
      var v, v' := ViewOf(s, k), ViewOf(s', k);
      assert ViewInv(v);
      InboundAppend(s.toClient, [Pubrel(id)], k);
      if k == id {
        assert v.g == [Pubrec(id)] + v'.g;
        assert Inbound([Pubrel(id)], k) == [Pubrel(id)];
        ViewPubrec(v, Pubrel(id), v');
      } else {
        assert Inbound([Pubrel(id)], k) == [];
        assert v' == v;
      }
    }
  }

  lemma StepPubcomp(s: System, id: nat)
    requires Inv(s) && AllViews(s) && s.toBroker != [] && s.toBroker[0] == Pubcomp(id) && id != 0
    ensures var s' := Next(s, BrokerReceive);
      Inv(s') && AllViews(s') && (Live(s) ==> Live(s'))
  {
    var s' := Next(s, BrokerReceive);
    forall k: nat | k != 0 ensures ViewInv(ViewOf(s', k)) && (ViewLive(ViewOf(s, k)) ==> ViewLive(ViewOf(s', k))) {
      if k == id {
        PubcompView(s, id);
      } else {
        assert ViewInv(ViewOf(s, k));
        assert ViewOf(s', k) == ViewOf(s, k);
      }
    }
    assert Live(s) ==> ViewLive(ViewOf(s, id));
  }

  lemma PubcompView(s: System, id: nat)
    requires AllViews(s) && s.toBroker != [] && s.toBroker[0] == Pubcomp(id) && id != 0
    ensures var v, v' := ViewOf(s, id), ViewOf(Next(s, BrokerReceive), id);
      ViewInv(v') && (ViewLive(v) ==> ViewLive(v'))
  {
    var v, v' := ViewOf(s, id), ViewOf(Next(s, BrokerReceive), id);
    assert ViewInv(v);
    assert v.g == [Pubcomp(id)] + v'.g;
    ViewPubcomp(v, v.(known := v.known && v.pending.Published?, g := v.g[1..]));
  }

  /** No PUBREC ever reaches a broker that has forgotten its identifier. */
  lemma PubrecIsExpected(s: System, id: nat)
    requires AllViews(s) && s.toBroker != [] && s.toBroker[0] == Pubrec(id) && id != 0
    ensures id in s.broker
  {
    var v := ViewOf(s, id);
    assert v.g[0] == Pubrec(id);
    assert ViewInv(v);
  }

  lemma StepBrokerReceive(s: System)
    requires Inv(s) && AllViews(s) && s.toBroker != []
    ensures var s' := Next(s, BrokerReceive);
      Inv(s') && AllViews(s') && (Live(s) ==> Live(s'))
  {
    var p := s.toBroker[0];
    if p.Pubrec? && p.id != 0 {
      PubrecIsExpected(s, p.id);
      StepPubrec(s, p.id);
    } else if p.Pubcomp? && p.id != 0 {
      StepPubcomp(s, p.id);
    } else {
      StepBrokerIgnores(s);
    }
  }

  /** Packets that acknowledge no publication change nothing but the channel. */
  lemma StepBrokerIgnores(s: System)
    requires Inv(s) && AllViews(s) && s.toBroker != []
    requires forall k :: k != 0 ==> !Acknowledges(s.toBroker[0], k)
    ensures var s' := Next(s, BrokerReceive);
      Inv(s') && AllViews(s') && (Live(s) ==> Live(s'))
  {
    var s', p := Next(s, BrokerReceive), s.toBroker[0];
    assert p.Pubrec? || p.Pubcomp? ==> p.id == 0 || Acknowledges(p, p.id);
    assert s' == s.(toBroker := s.toBroker[1..]);
    forall k: nat | k != 0 ensures ViewOf(s', k) == ViewOf(s, k) {
      assert !Acknowledges(s.toBroker[0], k);
    }
  }

  lemma StepReconnect(s: System)
    requires Inv(s) && AllViews(s)
    ensures var s' := Next(s, Reconnect);
      Inv(s') && AllViews(s') && (Live(s) ==> Live(s'))
  {
    var s' := Next(s, Reconnect);
    forall k: nat | k != 0 ensures ViewInv(ViewOf(s', k)) && (ViewLive(ViewOf(s, k)) ==> ViewLive(ViewOf(s', k))) {
      assert ViewInv(ViewOf(s, k));
      ViewReconnect(ViewOf(s, k));
    }
  }

  lemma StepClientOther(s: System, s1: System, incoming: Incoming, env: Env)
    requires Inv(s) && AllViews(s)
    requires incoming.Received? ==> !IsReceipt(incoming.packet)
    requires if incoming == Nothing then s1 == s
      else s.toClient != [] && incoming == Received(s.toClient[0]) && s1 == s.(toClient := s.toClient[1..])
    ensures var s' := ClientHandle(s1, incoming, env);
      Inv(s') && AllViews(s') && (Live(s) ==> Live(s'))
  {
    var o := Cycle(s.client, incoming, env);
    CycleOther(s.client, incoming, env);
    var s' := ClientHandle(s1, incoming, env);
    forall k: nat | k != 0 ensures ViewOf(s', k) == ViewOf(s, k) {
      OutboundAppend(s.toBroker, o.sent, k);
    }
  }

  lemma StepClientPubrel(s: System, id: nat, env: Env)
    requires Inv(s) && AllViews(s) && s.toClient != [] && s.toClient[0] == Pubrel(id)
    ensures var s' := Next(s, ClientCycle(env));
      Inv(s') && AllViews(s') && (Live(s) ==> Live(s'))
  {
    var o := Cycle(s.client, Received(Pubrel(id)), env);
    CyclePubrel(s.client, id, env);
    var s' := Next(s, ClientCycle(env));
    FreeKeeps(s.client.ids, id);
    TakePubrel(s, id, env.sendOk, s', o.sent);
  }

  lemma TakePubrel(s: System, id: nat, sendOk: bool, s': System, sent: seq<Packet>)
    requires Inv(s) && AllViews(s) && s.toClient != [] && s.toClient[0] == Pubrel(id)
    requires s' == s.(toClient := s.toClient[1..], toBroker := s.toBroker + sent, client := s'.client)
    requires Distinct(s'.client.ids) && s'.client.deliveries == s.client.deliveries
    requires forall k :: Outbound(sent, k) == if sendOk && k == id then [Pubcomp(id)] else []
    requires forall k :: k != 0 ==> (k in s'.client.ids <==> k in s.client.ids && !(sendOk && k == id))
    ensures Inv(s') && AllViews(s') && (Live(s) ==> Live(s'))
  {
    forall k: nat | k != 0 ensures ViewInv(ViewOf(s', k)) && (ViewLive(ViewOf(s, k)) ==> ViewLive(ViewOf(s', k))) {
      OutboundAppend(s.toBroker, sent, k);
      if k == id {
        PubrelView(s, s', id, Outbound(sent, id));
      } else {
        assert ViewInv(ViewOf(s, k));
        assert ViewOf(s', k) == ViewOf(s, k);
      }
    }
  }

  lemma PubrelView(s: System, s': System, id: nat, reply: seq<Packet>)
    requires AllViews(s) && s.toClient != [] && s.toClient[0] == Pubrel(id) && id != 0
    requires s'.broker == s.broker && s'.toClient == s.toClient[1..] && s'.client.deliveries == s.client.deliveries
    requires Outbound(s'.toBroker, id) == Outbound(s.toBroker, id) + reply
    requires reply == [] || (|reply| == 1 && reply[0].Pubcomp?)
    requires id in s'.client.ids <==> id in s.client.ids && reply == []
    ensures ViewInv(ViewOf(s', id)) && (ViewLive(ViewOf(s, id)) ==> ViewLive(ViewOf(s', id)))
  {
    var v, v' := ViewOf(s, id), ViewOf(s', id);
    assert ViewInv(v);
    assert v.f == [Pubrel(id)] + v'.f;
    ViewTakePubrel(v, reply, v');
  }

  /** Freeing affects no other identifier and keeps the table free of repetitions. */
  lemma FreeKeeps(ids: seq<nat>, id: nat)
    requires Distinct(ids)
    ensures Distinct(Free(ids, id))
    ensures forall k :: k != 0 ==> (k in Free(ids, id) <==> k in ids && k != id)
  {
    if id != 0 {
      FreeRemoves(ids, id);
      assert forall k :: k != 0 ==> (k in Free(ids, id) <==> k in Stored(Free(ids, id)));
      assert forall k :: k != 0 ==> (k in ids <==> k in Stored(ids));
    } else {
      assert Free(ids, id) == ids;
    }
  }

  /** A slot is free for an identifier that is in flight and not stored, if those in flight fit. */
  lemma RoomForPending(s: System, id: nat)
    requires Inv(s) && AllViews(s) && id in s.broker && id !in s.client.ids
    requires |s.broker| <= |s.client.ids|
    ensures 0 in s.client.ids
  {
    var stored := Stored(s.client.ids);
    forall k | k in stored ensures k in s.broker.Keys - {id} {
      assert ViewInv(ViewOf(s, k));
    }
    SubsetSize(stored, s.broker.Keys - {id});
    assert |s.broker.Keys - {id}| == |s.broker| - 1;
    StoredSize(s.client.ids);
  }

  /** `room`: message `m` was delivered; everybody else's deliveries are as before. */
  ghost predicate Delivered(c: State, m: Message, room: bool, c': State) {
    forall t :: Deliveries(c'.deliveries, t) == Deliveries(c.deliveries, t) + if room && m.tag == t then 1 else 0
  }

  lemma StepClientPublish(s: System, m: Message, env: Env)
    requires Inv(s) && AllViews(s) && s.toClient != [] && s.toClient[0] == Publish(m) && m.qos == 2
    ensures var s' := Next(s, ClientCycle(env));
      Inv(s') && AllViews(s') && (Live(s) && |s.broker| <= |s.client.ids| ==> Live(s'))
  {
    var o := Cycle(s.client, Received(Publish(m)), env);
    CyclePublish(s.client, m, env);
    var s' := Next(s, ClientCycle(env));
    var room := IsFree(s.client.ids, m.id) && Use(s.client.ids, m.id).0;
    AcceptEffect(s.client, m);
    assert Delivered(s.client, m, room, s'.client) by {
      forall t ensures Deliveries(s'.client.deliveries, t) ==
        Deliveries(s.client.deliveries, t) + if room && m.tag == t then 1 else 0
      {
        DeliveriesAppend(s.client.deliveries, m, t);
      }
    }
    TakePublish(s, m, room, s', o.sent);
  }

  lemma TakePublish(s: System, m: Message, room: bool, s': System, sent: seq<Packet>)
    requires Inv(s) && AllViews(s) && s.toClient != [] && s.toClient[0] == Publish(m) && m.qos == 2
    requires s' == s.(toClient := s.toClient[1..], toBroker := s.toBroker + sent, client := s'.client)
    requires Distinct(s'.client.ids)
    requires forall k :: Outbound(sent, k) == [] || (k == m.id && Outbound(sent, k) == [Pubrec(m.id)])
    requires room ==> m.id != 0 && m.id !in s.client.ids
    requires m.id !in s.client.ids && 0 in s.client.ids ==> room
    requires forall k :: k != 0 ==> (k in s'.client.ids <==> k in s.client.ids || (room && k == m.id))
    requires Delivered(s.client, m, room, s'.client)
    ensures Inv(s') && AllViews(s') && (Live(s) && |s.broker| <= |s.client.ids| ==> Live(s'))
  {
    if m.id != 0 {
      TakePublishView(s, m, room, s', sent);
    }
    forall k: nat | k != 0 && k != m.id ensures ViewOf(s', k) == ViewOf(s, k) {
      OutboundAppend(s.toBroker, sent, k);
    }
  }

  lemma TakePublishView(s: System, m: Message, room: bool, s': System, sent: seq<Packet>)
    requires Inv(s) && AllViews(s) && s.toClient != [] && s.toClient[0] == Publish(m) && m.qos == 2 && m.id != 0
    requires s'.broker == s.broker && s'.toClient == s.toClient[1..] && s'.toBroker == s.toBroker + sent
    requires Outbound(sent, m.id) == [] || Outbound(sent, m.id) == [Pubrec(m.id)]
    requires room ==> m.id !in s.client.ids
    requires m.id !in s.client.ids && 0 in s.client.ids ==> room
    requires m.id in s'.client.ids <==> m.id in s.client.ids || room
    requires Delivered(s.client, m, room, s'.client)
    ensures m.id in s.broker && m == s.broker[m.id].message
    ensures room ==> Deliveries(s.client.deliveries, m.tag) == 0
    ensures ViewInv(ViewOf(s', m.id))
    ensures Live(s) && |s.broker| <= |s.client.ids| ==> ViewLive(ViewOf(s', m.id))
  {
    var v, v' := ViewOf(s, m.id), ViewOf(s', m.id);
    OutboundAppend(s.toBroker, sent, m.id);
    assert v.f == [Publish(m)] + v'.f;
    assert v.f[0] == Publish(m);
    assert ViewInv(v);
    assert m.id in s.broker && m == s.broker[m.id].message;
    ViewTakePublish(v, m, room, Outbound(sent, m.id), v');
    if Live(s) && |s.broker| <= |s.client.ids| {
      assert ViewLive(v);
      if !v.stored { RoomForPending(s, m.id); }
    }
  }

  lemma AcceptEffect(c: State, m: Message)
    requires Distinct(c.ids) && m.qos == 2
    ensures var room := IsFree(c.ids, m.id) && Use(c.ids, m.id).0;
      Accept(c, m).deliveries == c.deliveries + (if room then [m] else []) &&
      Distinct(Accept(c, m).ids) && |Accept(c, m).ids| == |c.ids| &&
      (room ==> m.id != 0 && m.id !in c.ids) &&
      (m.id !in c.ids && 0 in c.ids ==> room) &&
      forall k :: k != 0 ==> (k in Accept(c, m).ids <==> k in c.ids || (room && k == m.id))
  {
    FreeMeansAbsent(c.ids, m.id);
    FreeMeansAbsent(c.ids, 0);
    if m.id != 0 && m.id !in c.ids {
      UseInserts(c.ids, m.id);
      var r := Use(c.ids, m.id).1;
      assert forall k :: k != 0 ==> (k in r <==> k in Stored(r)) && (k in c.ids <==> k in Stored(c.ids));
    }
  }

  // ---------- whole runs ----------

  lemma NextKeeps(s: System, a: Action)
    requires Inv(s) && AllViews(s) && a != DropSession
    ensures var s' := Next(s, a);
      Inv(s') && AllViews(s') && (Live(s) && |s.broker| <= |s.client.ids| ==> Live(s'))
  {
    match a
    case BrokerPublish(id, topic, payload) =>
      if id != 0 && id !in s.broker { StepBrokerPublish(s, id, topic, payload); }
    case BrokerResend(id) =>
      if id in s.broker { StepBrokerResend(s, id); }
    case BrokerOther(p) =>
      if !IsReceipt(p) { StepBrokerOther(s, p); }
    case BrokerReceive =>
      if s.toBroker != [] { StepBrokerReceive(s); }
    case ClientCycleEmpty(env) =>
      StepClientOther(s, s, Nothing, env);
    case Reconnect =>
      StepReconnect(s);
    case ClientCycle(env) =>
      if s.toClient != [] {
        var p := s.toClient[0];
        if p.Pubrel? {
          StepClientPubrel(s, p.id, env);
        } else if p.Publish? && p.message.qos == 2 {
          StepClientPublish(s, p.message, env);
        } else {
          StepClientOther(s, s.(toClient := s.toClient[1..]), Received(p), env);
        }
      }
  }

  lemma {:induction false} RunKeeps(s: System, actions: seq<Action>)
    requires Inv(s) && AllViews(s) && KeepsSession(actions)
    ensures Inv(Run(s, actions)) && AllViews(Run(s, actions))
    ensures Live(s) && FitsTable(s, actions) ==> Live(Run(s, actions))
    decreases |actions|
  {
    if actions != [] {
      NextKeeps(s, actions[0]);
      RunKeeps(Next(s, actions[0]), actions[1..]);
    }
  }

  lemma {:induction false} InitHolds(slots: nat, keepAlive: nat)
    ensures Inv(Init(slots, keepAlive)) && AllViews(Init(slots, keepAlive)) && Live(Init(slots, keepAlive))
  {
  }

  /** In every run that keeps the session, no publication reaches a handler twice, and no packet
      identifier is ever stored twice. */
  lemma AtMostOnce(slots: nat, keepAlive: nat, actions: seq<Action>, tag: nat)
    requires KeepsSession(actions)
    ensures Deliveries(Run(Init(slots, keepAlive), actions).client.deliveries, tag) <= 1
    ensures Distinct(Run(Init(slots, keepAlive), actions).client.ids)
  {
    InitHolds(slots, keepAlive);
    RunKeeps(Init(slots, keepAlive), actions);
  }

  /** If the publications in flight never outnumber the slots, a publication whose PUBCOMP has
      reached the broker was delivered exactly once. */
  lemma ExactlyOnceWhenCompleted(slots: nat, keepAlive: nat, actions: seq<Action>, tag: nat)
    requires KeepsSession(actions) && FitsTable(Init(slots, keepAlive), actions)
    requires tag in Run(Init(slots, keepAlive), actions).completed
    ensures Deliveries(Run(Init(slots, keepAlive), actions).client.deliveries, tag) == 1
  {
    InitHolds(slots, keepAlive);
    RunKeeps(Init(slots, keepAlive), actions);
  }

  // ---------- completion, and the two provisos ----------

  const GOOD_PASS := Env(true, false, false)

  /** Reconnecting and resending always brings a publication in flight to its end. */
  function Recovery(p: Pending): seq<Action> {
    [Reconnect, BrokerResend(p.message.id), ClientCycle(GOOD_PASS), BrokerReceive] +
    if p.Published? then [ClientCycle(GOOD_PASS), BrokerReceive] else []
  }

  lemma RunAppend(s: System, a: seq<Action>, b: seq<Action>)
    ensures Run(s, a + b) == Run(Run(s, a), b)
    decreases |a|
  {
    if a == [] {
      assert a + b == b;
    } else {
      assert (a + b)[1..] == a[1..] + b;
      RunAppend(Next(s, a[0]), a[1..], b);
    }
  }

  lemma TwoSteps(s: System, a: Action, b: Action)
    ensures Run(s, [a, b]) == Next(Next(s, a), b)
  {
    assert [a, b][1..] == [b] && [b][1..] == [];
    assert Run(Next(s, a), [b]) == Run(Next(Next(s, a), b), []);
  }

  /** The client's reply to the only packet under way reaches the broker. */
  lemma Exchange(s: System, p: Packet, ack: Packet)
    requires s.toClient == [p] && s.toBroker == []
    requires IsReceipt(p) && (p.Publish? ==> p.message.qos == 2)
    requires ack == if p.Publish? then Pubrec(p.message.id) else Pubcomp(p.id)
    ensures Run(s, [ClientCycle(GOOD_PASS), BrokerReceive]) ==
      BrokerHandle(s.(toClient := [], client := Cycle(s.client, Received(p), GOOD_PASS).state), ack)
  {
    var s1 := Next(s, ClientCycle(GOOD_PASS));
    assert Cycle(s.client, Received(p), GOOD_PASS).sent == [ack];
    assert s1 == s.(toClient := [], toBroker := [ack], client := s1.client);
    TwoSteps(s, ClientCycle(GOOD_PASS), BrokerReceive);
    assert [ack][1..] == [];
    assert s1.(toBroker := []) == s.(toClient := [], client := s1.client);
  }

  /** The client after `Recovery`. */
  function RecoveredClient(c: State, p: Pending): State {
    var c1 := if p.Published? then Cycle(c, Received(Publish(p.message)), GOOD_PASS).state else c;
    Cycle(c1, Received(Pubrel(p.message.id)), GOOD_PASS).state
  }

  const EXCHANGE := [ClientCycle(GOOD_PASS), BrokerReceive]

  lemma Resent(s: System, id: nat)
    requires id in s.broker
    ensures Run(s, [Reconnect, BrokerResend(id)]) == s.(toClient := [Packets(s.broker[id])], toBroker := [])
  {
    TwoSteps(s, Reconnect, BrokerResend(id));
  }

  /** Reconnecting, resending and one exchange. */
  lemma FirstExchange(s: System, id: nat)
    requires Inv(s) && id in s.broker
    ensures var p := s.broker[id];
      var ack := if p.Published? then Pubrec(id) else Pubcomp(id);
      var c := Cycle(s.client, Received(Packets(p)), GOOD_PASS).state;
      Run(s, [Reconnect, BrokerResend(id)] + EXCHANGE) ==
        BrokerHandle(s.(toClient := [], toBroker := [], client := c), ack)
  {
    var p := s.broker[id];
    var resent := s.(toClient := [Packets(p)], toBroker := []);
    Resent(s, id);
    RunAppend(s, [Reconnect, BrokerResend(id)], EXCHANGE);
    Exchange(resent, Packets(p), if p.Published? then Pubrec(id) else Pubcomp(id));
  }

  /** From every reachable state, every publication in flight can be completed. */
  lemma CanAlwaysComplete(s: System, id: nat)
    requires Inv(s) && id in s.broker
    ensures var s' := Run(s, Recovery(s.broker[id]));
      id !in s'.broker && s.broker[id].message.tag in s'.completed &&
      s'.client == RecoveredClient(s.client, s.broker[id])
    ensures KeepsSession(Recovery(s.broker[id]))
  {
    var p := s.broker[id];
    var a := [Reconnect, BrokerResend(id)] + EXCHANGE;
    FirstExchange(s, id);
    if p.Published? {
      var released := Run(s, a);
      assert released.toClient == [Pubrel(id)] && released.toBroker == [];
      Exchange(released, Pubrel(id), Pubcomp(id));
      RunAppend(s, a, EXCHANGE);
      assert Recovery(p) == a + EXCHANGE;
    } else {
      assert Recovery(p) == a;
    }
  }

  /** A PUBLISH is acknowledged exactly when the reply goes out; and, whether or not it does, the message
      is neither delivered now nor known from before exactly when the table is full of other identifiers. */
  lemma LostExactlyWhenFull(c: State, m: Message, env: Env)
    requires Distinct(c.ids) && m.qos == 2 && m.id != 0
    ensures var o := Cycle(c, Received(Publish(m)), env);
      (Pubrec(m.id) in o.sent <==> env.sendOk) &&
      (o.state.deliveries == c.deliveries && m.id !in c.ids <==>
       m.id !in c.ids && |Stored(c.ids)| == |c.ids|)
  {
    StoredSize(c.ids);
    AcceptEffect(c, m);
    CyclePublish(c, m, env);
    assert env.sendOk ==> Cycle(c, Received(Publish(m)), env).sent[0] == Pubrec(m.id);
  }

  /** A full table of other identifiers: the publication is completed without ever being delivered. */
  lemma FullTableCompletesUndelivered(s: System, id: nat)
    requires Inv(s) && AllViews(s) && id in s.broker && s.broker[id].Published?
    requires id !in s.client.ids && 0 !in s.client.ids
    ensures var s' := Run(s, Recovery(s.broker[id]));
      s.broker[id].message.tag in s'.completed && Deliveries(s'.client.deliveries, s.broker[id].message.tag) == 0
  {
    CanAlwaysComplete(s, id);
    assert ViewInv(ViewOf(s, id));
    AcceptEffect(s.client, s.broker[id].message);
  }

  /** Once the client has dropped its session, a resent publication is delivered once more. */
  lemma DroppedSessionRedelivers(s: System, id: nat)
    requires Inv(s) && id in s.broker && s.broker[id].Published? && |s.client.ids| > 0
    ensures var tag := s.broker[id].message.tag;
      var s' := Run(s, [DropSession, Reconnect] + [BrokerResend(id), ClientCycle(GOOD_PASS)]);
      Deliveries(s'.client.deliveries, tag) == Deliveries(s.client.deliveries, tag) + 1
  {
    var m := s.broker[id].message;
    var dropped := Run(s, [DropSession, Reconnect]);
    TwoSteps(s, DropSession, Reconnect);
    RunAppend(s, [DropSession, Reconnect], [BrokerResend(id), ClientCycle(GOOD_PASS)]);
    TwoSteps(dropped, BrokerResend(id), ClientCycle(GOOD_PASS));
    var resent := Next(dropped, BrokerResend(id));
    assert resent.toClient == [Publish(m)] && resent.client == dropped.client;
    FreshTableDelivers(dropped.client, m, GOOD_PASS);
  }

  lemma FreshTableDelivers(c: State, m: Message, env: Env)
    requires |c.ids| > 0 && m.qos == 2 && m.id != 0
    requires forall i :: 0 <= i < |c.ids| ==> c.ids[i] == 0
    ensures Deliveries(Cycle(c, Received(Publish(m)), env).state.deliveries, m.tag) == Deliveries(c.deliveries, m.tag) + 1
  {
    assert c.ids[0] == 0 && m.id !in c.ids;
    AcceptEffect(c, m);
    CyclePublish(c, m, env);
    DeliveriesAppend(c.deliveries, m, m.tag);
  }

  const FAILED_PASS := Env(false, false, false)

  /** Whatever the size of the table, a dropped session can deliver a publication twice: published,
      delivered with its PUBREC failing, forgotten, resent and delivered again. */
  lemma DroppedSessionDeliversTwice(slots: nat, keepAlive: nat)
    requires slots > 0
    ensures var first := Run(Init(slots, keepAlive), [BrokerPublish(1, "", ""), ClientCycle(FAILED_PASS)]);
      var second := Run(first, [DropSession, Reconnect] + [BrokerResend(1), ClientCycle(GOOD_PASS)]);
      Deliveries(first.client.deliveries, 0) == 1 && Deliveries(second.client.deliveries, 0) == 2
  {
    FirstDelivery(slots, keepAlive);
    DroppedSessionRedelivers(Run(Init(slots, keepAlive), [BrokerPublish(1, "", ""), ClientCycle(FAILED_PASS)]), 1);
  }

  lemma FirstDelivery(slots: nat, keepAlive: nat)
    requires slots > 0
    ensures var s := Run(Init(slots, keepAlive), [BrokerPublish(1, "", ""), ClientCycle(FAILED_PASS)]);
      Inv(s) && 1 in s.broker && s.broker[1] == Published(Message(2, 1, "", "", 0)) && |s.client.ids| > 0 &&
      Deliveries(s.client.deliveries, 0) == 1
  {
    var init := Init(slots, keepAlive);
    TwoSteps(init, BrokerPublish(1, "", ""), ClientCycle(FAILED_PASS));
    InitHolds(slots, keepAlive);
    NextKeeps(init, BrokerPublish(1, "", ""));
    FirstCycle(Next(init, BrokerPublish(1, "", "")));
  }

  lemma FirstCycle(s: System)
    requires Inv(s) && AllViews(s) && |s.client.ids| > 0 && s.client.deliveries == []
    requires s.toClient == [Publish(Message(2, 1, "", "", 0))] && forall i :: 0 <= i < |s.client.ids| ==> s.client.ids[i] == 0
    ensures var s' := Next(s, ClientCycle(FAILED_PASS));
      Inv(s') && s'.broker == s.broker && |s'.client.ids| > 0 && Deliveries(s'.client.deliveries, 0) == 1
  {
    var m := Message(2, 1, "", "", 0);
    NextKeeps(s, ClientCycle(FAILED_PASS));
    FreshTableDelivers(s.client, m, FAILED_PASS);
    CyclePublish(s.client, m, FAILED_PASS);
    AcceptEffect(s.client, m);
  }

  /** Publications 1 to j, each taken by the client, with every PUBREC failing. */
  function FillTable(j: nat): seq<Action> {
    if j == 0 then [] else FillTable(j - 1) + [BrokerPublish(j, "", ""), ClientCycle(FAILED_PASS)]
  }

  /** The table holds j identifiers, none above j; so does the broker, and nothing is on its way. */
  ghost predicate Filled(s: System, slots: nat, j: nat) {
    Inv(s) && AllViews(s) && |s.client.ids| == slots && s.toClient == [] && |Stored(s.client.ids)| == j &&
    (forall id :: id in s.broker ==> id <= j) && (forall id :: id in s.client.ids ==> id <= j)
  }

  lemma {:induction false} FillTableFills(slots: nat, keepAlive: nat, j: nat)
    requires j <= slots
    ensures Filled(Run(Init(slots, keepAlive), FillTable(j)), slots, j) && KeepsSession(FillTable(j))
  {
    var init := Init(slots, keepAlive);
    if j == 0 {
      InitHolds(slots, keepAlive);
      StoredSize(init.client.ids);
      assert Stored(init.client.ids) == {};
    } else {
      FillTableFills(slots, keepAlive, j - 1);
      var s := Run(init, FillTable(j - 1));
      RunAppend(init, FillTable(j - 1), [BrokerPublish(j, "", ""), ClientCycle(FAILED_PASS)]);
      TwoSteps(s, BrokerPublish(j, "", ""), ClientCycle(FAILED_PASS));
      FillOneMore(s, slots, j);
    }
  }

  lemma FillOneMore(s: System, slots: nat, j: nat)
    requires 0 < j <= slots && Filled(s, slots, j - 1)
    ensures Filled(Next(Next(s, BrokerPublish(j, "", "")), ClientCycle(FAILED_PASS)), slots, j)
  {
    var published := Next(s, BrokerPublish(j, "", ""));
    NextKeeps(s, BrokerPublish(j, "", ""));
    NextKeeps(published, ClientCycle(FAILED_PASS));
    StoredSize(s.client.ids);
    TakeOneMore(published, Message(2, j, "", "", s.next));
  }

  lemma TakeOneMore(s: System, m: Message)
    requires s.toClient == [Publish(m)] && Distinct(s.client.ids) && 0 in s.client.ids
    requires m.qos == 2 && m.id != 0 && m.id !in s.client.ids
    ensures var s' := Next(s, ClientCycle(FAILED_PASS));
      s'.broker == s.broker && s'.toClient == [] && |s'.client.ids| == |s.client.ids| &&
      |Stored(s'.client.ids)| == |Stored(s.client.ids)| + 1 &&
      forall id :: id in s'.client.ids ==> id in s.client.ids || id == m.id
  {
    StoredOneMore(s.client, m);
  }

  lemma StoredOneMore(c: State, m: Message)
    requires Distinct(c.ids) && 0 in c.ids && m.qos == 2 && m.id != 0 && m.id !in c.ids
    ensures var c' := Cycle(c, Received(Publish(m)), FAILED_PASS).state;
      |c'.ids| == |c.ids| && Stored(c'.ids) == Stored(c.ids) + {m.id} && |Stored(c'.ids)| == |Stored(c.ids)| + 1 &&
      forall id :: id in c'.ids ==> id in c.ids || id == m.id
  {
    AcceptEffect(c, m);
    CyclePublish(c, m, FAILED_PASS);
  }

  /** Whatever the size of the table, one publication too many can be completed undelivered. */
  lemma OnePublicationTooMany(slots: nat, keepAlive: nat)
    ensures var full := Run(Init(slots, keepAlive), FillTable(slots) + [BrokerPublish(slots + 1, "", "")]);
      slots + 1 in full.broker &&
      var s := Run(full, Recovery(full.broker[slots + 1]));
      var tag := full.broker[slots + 1].message.tag;
      tag in s.completed && Deliveries(s.client.deliveries, tag) == 0
  {
    var init, extra := Init(slots, keepAlive), BrokerPublish(slots + 1, "", "");
    FillTableFills(slots, keepAlive, slots);
    var s := Run(init, FillTable(slots));
    RunAppend(init, FillTable(slots), [extra]);
    var full := Next(s, extra);
    assert [extra][1..] == [] && Run(s, [extra]) == Run(full, []);
    NextKeeps(s, extra);
    StoredSize(s.client.ids);
    FullTableCompletesUndelivered(full, slots + 1);
  }

  // ---------- when a dropped session does no harm ----------

  /** Every publication in flight that has been delivered waits for its PUBCOMP only, and no copy of it
      is on its way to the client. */
  predicate Settled(s: System) {
    forall id :: id in s.broker && Deliveries(s.client.deliveries, s.broker[id].message.tag) > 0 ==>
      s.broker[id].Released? && Publish(s.broker[id].message) !in s.toClient
  }

  lemma {:induction false} InboundHolds(ps: seq<Packet>, id: nat, p: Packet)
    ensures p in Inbound(ps, id) <==> p in ps && Concerns(p, id)
  {
    if ps != [] {
      InboundHolds(ps[1..], id, p);
      assert ps == [ps[0]] + ps[1..];
    }
  }

  /** Dropping the session of a settled system keeps the invariant, and so all that follows from it. */
  lemma SettledDropKeeps(s: System)
    requires Inv(s) && AllViews(s) && Settled(s)
    ensures Inv(Next(s, DropSession)) && AllViews(Next(s, DropSession))
  {
    var s' := Next(s, DropSession);
    forall id: nat | id != 0 ensures ViewInv(ViewOf(s', id)) {
      var v := ViewOf(s, id);
      assert ViewInv(v);
      assert !ViewOf(s', id).stored;
      assert ViewOf(s', id) == v.(stored := false);
      InboundHolds(s.toClient, id, Publish(v.pending.message));
      assert HasPublish(v.f) && v.known ==> Publish(v.pending.message) in v.f;
    }
  }

  /** A packet whose copy reaches the front of the channel finds a slot if there are more slots than
      packets in front of it. */
  lemma {:induction false} CopyIsDelivered(s: System, m: Message, i: nat)
    requires i < |s.toClient| && s.toClient[i] == Publish(m) && m.qos == 2 && m.id != 0
    requires Distinct(s.client.ids) && m.id !in s.client.ids && |Stored(s.client.ids)| + i < |s.client.ids|
    requires forall j :: 0 <= j < i && s.toClient[j].Publish? && s.toClient[j].message.qos == 2 ==>
      s.toClient[j].message.id != m.id
    ensures Deliveries(Run(s, Cycles(i + 1)).client.deliveries, m.tag) > Deliveries(s.client.deliveries, m.tag)
    decreases i
  {
    var p := s.toClient[0];
    var s' := Next(s, ClientCycle(GOOD_PASS));
    assert Cycles(i + 1)[1..] == Cycles(i);
    assert Run(s, Cycles(i + 1)) == Run(s', Cycles(i));
    if i == 0 {
      StoredSize(s.client.ids);
      AcceptEffect(s.client, m);
      CyclePublish(s.client, m, GOOD_PASS);
      DeliveriesAppend(s.client.deliveries, m, m.tag);
    } else {
      OnePacketAhead(s.client, p, m);
      CopyIsDelivered(s', m, i - 1);
    }
  }

  function Cycles(n: nat): seq<Action> {
    seq(n, _ => ClientCycle(GOOD_PASS))
  }

  /** A packet of another identifier takes at most one slot, and takes no delivery back. */
  lemma OnePacketAhead(c: State, p: Packet, m: Message)
    requires Distinct(c.ids) && m.id != 0 && m.id !in c.ids
    requires p.Publish? && p.message.qos == 2 ==> p.message.id != m.id
    ensures var c' := Cycle(c, Received(p), GOOD_PASS).state;
      Distinct(c'.ids) && |c'.ids| == |c.ids| && m.id !in c'.ids && |Stored(c'.ids)| <= |Stored(c.ids)| + 1 &&
      Deliveries(c'.deliveries, m.tag) >= Deliveries(c.deliveries, m.tag)
  {
    var c' := Cycle(c, Received(p), GOOD_PASS).state;
    if p.Publish? { DeliveriesAppend(c.deliveries, p.message, m.tag); }
    if p.Publish? && p.message.qos == 2 {
      AcceptEffect(c, p.message);
      SubsetSize(Stored(c'.ids), Stored(c.ids) + {p.message.id});
    } else if p.Pubrel? {
      FreeKeeps(c.ids, p.id);
      SubsetSize(Stored(c'.ids), Stored(c.ids));
    }
  }

  /** A run that delivers a publication of an unsettled system once more. */
  lemma UnsettledDropRedelivers(s: System, id: nat) returns (actions: seq<Action>)
    requires Inv(s) && AllViews(s) && id in s.broker && |s.client.ids| > 0 && |s.toClient| <= |s.client.ids|
    requires Deliveries(s.client.deliveries, s.broker[id].message.tag) > 0
    requires s.broker[id].Published? || Publish(s.broker[id].message) in s.toClient
    ensures KeepsSession(actions)
    ensures Deliveries(Run(Next(s, DropSession), actions).client.deliveries, s.broker[id].message.tag) > 1
  {
    var m := s.broker[id].message;
    if s.broker[id].Published? {
      actions := [Reconnect, BrokerResend(id), ClientCycle(GOOD_PASS)];
      DroppedSessionRedelivers(s, id);
      var all := [DropSession, Reconnect] + [BrokerResend(id), ClientCycle(GOOD_PASS)];
      assert all[1..] == actions;
    } else {
      var i := FirstCopy(s, id);
      actions := Cycles(i + 1);
      var s' := Next(s, DropSession);
      assert Stored(s'.client.ids) == {};
      CopyIsDelivered(s', m, i);
    }
  }

  lemma FirstCopy(s: System, id: nat) returns (i: nat)
    requires Inv(s) && AllViews(s) && id in s.broker && Publish(s.broker[id].message) in s.toClient
    ensures i < |s.toClient| && s.toClient[i] == Publish(s.broker[id].message)
    ensures forall j :: 0 <= j < i && s.toClient[j].Publish? && s.toClient[j].message.qos == 2 ==>
      s.toClient[j].message.id != id
  {
    i := 0;
    while s.toClient[i] != Publish(s.broker[id].message)
      invariant i < |s.toClient| && Publish(s.broker[id].message) !in s.toClient[..i]
      decreases |s.toClient| - i
    {
      i := i + 1;
      assert s.toClient == s.toClient[..i] + s.toClient[i..];
    }
    assert ViewInv(ViewOf(s, id));
    forall j | 0 <= j < i && s.toClient[j].Publish? && s.toClient[j].message.qos == 2
      ensures s.toClient[j].message.id != id
    {
      InboundHolds(s.toClient, id, s.toClient[j]);
      assert s.toClient[j] == s.toClient[..i][j];
    }
  }

  /** With a table no shorter than the channel to the client: after a dropped session every run that
      follows delivers at most once exactly when the system was settled. */
  lemma DropIsHarmlessExactlyWhenSettled(s: System)
    requires Inv(s) && AllViews(s) && |s.client.ids| > 0 && |s.toClient| <= |s.client.ids|
    ensures Settled(s) <==> forall actions, tag :: KeepsSession(actions) ==>
      Deliveries(Run(Next(s, DropSession), actions).client.deliveries, tag) <= 1
  {
    if Settled(s) {
      forall actions, tag | KeepsSession(actions)
        ensures Deliveries(Run(Next(s, DropSession), actions).client.deliveries, tag) <= 1
      {
        SettledDropIsHarmless(s, actions, tag);
      }
    } else {
      var id :| id in s.broker && Deliveries(s.client.deliveries, s.broker[id].message.tag) > 0 &&
        !(s.broker[id].Released? && Publish(s.broker[id].message) !in s.toClient);
      var actions := UnsettledDropRedelivers(s, id);
    }
  }

  /** Whatever the sizes, a settled system can drop its session: nothing is delivered twice. */
  lemma SettledDropIsHarmless(s: System, actions: seq<Action>, tag: nat)
    requires Inv(s) && AllViews(s) && Settled(s) && KeepsSession(actions)
    ensures Deliveries(Run(Next(s, DropSession), actions).client.deliveries, tag) <= 1
  {
    SettledDropKeeps(s);
    RunKeeps(Next(s, DropSession), actions);
  }

  /** The identifier table of any client that keeps cycling never stores an identifier twice. */
  lemma {:induction false} PassesKeepDistinct(c: State, passes: seq<Pass>)
    requires Distinct(c.ids)
    ensures Distinct(Passes(c, passes).ids) && |Passes(c, passes).ids| == |c.ids|
    decreases |passes|
  {
    if passes != [] {
      var incoming := passes[0].incoming;
      if incoming.Received? && incoming.packet.Publish? && incoming.packet.message.qos == 2 {
        AcceptEffect(c, incoming.packet.message);
      } else if incoming.Received? && incoming.packet.Pubrel? {
        FreeKeeps(c.ids, incoming.packet.id);
      }
      PassesKeepDistinct(Cycle(c, incoming, passes[0].env).state, passes[1..]);
    }
  }
}
