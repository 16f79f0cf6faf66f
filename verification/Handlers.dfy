/** The message handlers of the MQTT clients: a table of slots, and which callbacks a message reaches. */
module Handlers {
  import opened Wrappers
  import opened MqttPackets
  import opened Collections
  import Topics

  /** A slot of the handler table: a null filter means free; `fp` is the attached callback. */
  datatype Handler = Handler(topicFilter: Option<string>, fp: Option<nat>)

  /** A callback being invoked. */
  datatype Call = Call(fp: nat, message: Message)

  predicate Listens(h: Handler, topic: string) {
    h.topicFilter.Some? && Topics.Matches(Topics.Levels(h.topicFilter.value), Topics.Levels(topic)) && h.fp.Some?
  }

  /** The calls made for the first n slots, in slot order. */
  function SlotCalls(hs: seq<Handler>, n: nat, m: Message): seq<Call>
    requires n <= |hs|
  {
    if n == 0 then []
    else SlotCalls(hs, n - 1, m) + if Listens(hs[n - 1], m.topic) then [Call(hs[n - 1].fp.value, m)] else []
  }

  /** All calls for one message: the default handler steps in iff no slot made one. */
  function Dispatch(hs: seq<Handler>, default: Option<nat>, m: Message): seq<Call> {
    var calls := SlotCalls(hs, |hs|, m);
    if calls == [] && default.Some? then [Call(default.value, m)] else calls
  }

  /** The calls made for several messages, one after the other. */
  function DispatchAll(hs: seq<Handler>, default: Option<nat>, ms: seq<Message>): seq<Call> {
    if ms == [] then []
    else DispatchAll(hs, default, ms[..|ms| - 1]) + Dispatch(hs, default, ms[|ms| - 1])
  }

  lemma DispatchOneMore(hs: seq<Handler>, default: Option<nat>, ms: seq<Message>, m: Message)
    ensures DispatchAll(hs, default, ms + [m]) == DispatchAll(hs, default, ms) + Dispatch(hs, default, m)
  {
    assert (ms + [m])[..|ms|] == ms;
  }

  lemma {:induction false} DispatchAppend(hs: seq<Handler>, default: Option<nat>, a: seq<Message>, b: seq<Message>)
    ensures DispatchAll(hs, default, a + b) == DispatchAll(hs, default, a) + DispatchAll(hs, default, b)
  {
    if b == [] {
      assert a + b == a;
      assert DispatchAll(hs, default, b) == [];
    } else {
      var front, m := b[..|b| - 1], b[|b| - 1];
      SplitLast(b);
      DispatchAppend(hs, default, a, front);
      DispatchAppendOne(hs, default, a, front, m);
    }
  }

  lemma DispatchAppendOne(hs: seq<Handler>, default: Option<nat>, a: seq<Message>, b: seq<Message>, m: Message)
    requires DispatchAll(hs, default, a + b) == DispatchAll(hs, default, a) + DispatchAll(hs, default, b)
    ensures DispatchAll(hs, default, a + (b + [m])) == DispatchAll(hs, default, a) + DispatchAll(hs, default, b + [m])
  {
    DispatchOneMore(hs, default, a + b, m);
    DispatchOneMore(hs, default, b, m);
    Assoc(a, b, [m]);
    Assoc(DispatchAll(hs, default, a), DispatchAll(hs, default, b), Dispatch(hs, default, m));
  }

  predicate Listening(hs: seq<Handler>, n: nat, topic: string, k: int) {
    0 <= k < n <= |hs| && Listens(hs[k], topic)
  }

  /** `slots` lists the first n slots that listen to a topic, each once and in order. */
  ghost predicate ListeningSlots(hs: seq<Handler>, n: nat, topic: string, slots: seq<nat>) {
    (forall i, j :: 0 <= i < j < |slots| ==> slots[i] < slots[j]) &&
    (forall k :: k in slots <==> Listening(hs, n, topic, k))
  }

  ghost predicate OneCallEach(hs: seq<Handler>, m: Message, slots: seq<nat>, calls: seq<Call>) {
    |calls| == |slots| && forall k :: 0 <= k < |slots| ==>
      Listening(hs, |hs|, m.topic, slots[k]) && calls[k] == Call(hs[slots[k]].fp.value, m)
  }

  /** One call per listening slot, in slot order; the default handler iff no slot listens. */
  lemma DispatchOncePerListener(hs: seq<Handler>, default: Option<nat>, m: Message) returns (slots: seq<nat>)
    ensures ListeningSlots(hs, |hs|, m.topic, slots)
    ensures slots != [] ==> OneCallEach(hs, m, slots, Dispatch(hs, default, m))
    ensures slots == [] ==> Dispatch(hs, default, m) == if default.Some? then [Call(default.value, m)] else []
  {
    slots := Slots(hs, |hs|, m.topic);
    SlotsListen(hs, |hs|, m.topic);
    SlotCallsAre(hs, |hs|, m);
  }

  function Slots(hs: seq<Handler>, n: nat, topic: string): seq<nat>
    requires n <= |hs|
  {
    if n == 0 then [] else Slots(hs, n - 1, topic) + if Listens(hs[n - 1], topic) then [n - 1] else []
  }

  lemma {:induction false} SlotsListen(hs: seq<Handler>, n: nat, topic: string)
    requires n <= |hs|
    ensures ListeningSlots(hs, n, topic, Slots(hs, n, topic))
  {
    if n > 0 {
      SlotsListen(hs, n - 1, topic);
      OneMoreSlot(hs, n, topic, Slots(hs, n - 1, topic));
    }
  }

  lemma OneMoreSlot(hs: seq<Handler>, n: nat, topic: string, before: seq<nat>)
    requires 0 < n <= |hs| && ListeningSlots(hs, n - 1, topic, before)
    ensures ListeningSlots(hs, n, topic, before + if Listens(hs[n - 1], topic) then [n - 1] else [])
  {
    var slots := before + if Listens(hs[n - 1], topic) then [n - 1] else [];
    assert forall i :: 0 <= i < |before| ==> before[i] in before;
    forall k ensures k in slots <==> Listening(hs, n, topic, k) {
      assert k in slots <==> k in before || (k == n - 1 && Listens(hs[n - 1], topic));
    }
  }

  lemma {:induction false} SlotCallsAre(hs: seq<Handler>, n: nat, m: Message)
    requires n <= |hs|
    ensures OneCallEach(hs, m, Slots(hs, n, m.topic), SlotCalls(hs, n, m))
  {
    if n > 0 { SlotCallsAre(hs, n - 1, m); }
  }

  // ---------- the handler table ----------

  function FirstSlot(hs: seq<Handler>, f: Option<string>): (i: nat)
    ensures i <= |hs| && (i < |hs| ==> hs[i].topicFilter == f)
    ensures forall j :: 0 <= j < i ==> hs[j].topicFilter != f
  {
    if hs == [] || hs[0].topicFilter == f then 0 else FirstSlot(hs[1..], f) + 1
  }

  /** A granted subscription takes the first free slot, if there is one. */
  function Register(hs: seq<Handler>, f: string, fp: nat): (r: seq<Handler>)
    ensures |r| == |hs|
  {
    var i := FirstSlot(hs, None);
    if i < |hs| then hs[i := Handler(Some(f), Some(fp))] else hs
  }

  /** Unsubscribing frees the first slot with that very filter; its callback stays attached. */
  function Unregister(hs: seq<Handler>, f: string): (r: seq<Handler>)
    ensures |r| == |hs|
  {
    var i := FirstSlot(hs, Some(f));
    if i < |hs| then hs[i := hs[i].(topicFilter := None)] else hs
  }

  lemma {:induction false} SlotCallsDependOnListeners(hs: seq<Handler>, hs': seq<Handler>, n: nat, m: Message)
    requires n <= |hs| == |hs'|
    requires forall i :: 0 <= i < n ==>
      hs[i] == hs'[i] || (!Listens(hs[i], m.topic) && !Listens(hs'[i], m.topic))
    ensures SlotCalls(hs, n, m) == SlotCalls(hs', n, m)
  {
    if n > 0 { SlotCallsDependOnListeners(hs, hs', n - 1, m); }
  }

  lemma FirstSlotIs(hs: seq<Handler>, f: Option<string>, k: nat)
    requires k < |hs| && hs[k].topicFilter == f && forall j :: 0 <= j < k ==> hs[j].topicFilter != f
    ensures FirstSlot(hs, f) == k
  {
  }

  /** Subscribing to a new filter and unsubscribing from it leaves every dispatch as it was. */
  lemma UnsubscribeUndoesSubscribe(hs: seq<Handler>, f: string, fp: nat, default: Option<nat>, m: Message)
    requires FirstSlot(hs, Some(f)) == |hs|
    ensures Dispatch(Unregister(Register(hs, f, fp), f), default, m) == Dispatch(hs, default, m)
  {
    var r, k := Register(hs, f, fp), FirstSlot(hs, None);
    if k < |hs| {
      FirstSlotIs(r, Some(f), k);
      SlotCallsDependOnListeners(hs, Unregister(r, f), |hs|, m);
    }
  }

  /** A registered filter adds its own call to those of a topic it matches, and changes no other topic. */
  lemma SubscribeAddsOneListener(hs: seq<Handler>, f: string, fp: nat, topic: string, k: int)
    requires FirstSlot(hs, None) < |hs|
    ensures Listening(Register(hs, f, fp), |hs|, topic, k) <==>
      Listening(hs, |hs|, topic, k) ||
      (k == FirstSlot(hs, None) && Topics.Matches(Topics.Levels(f), Topics.Levels(topic)))
  {
  }

  /** The call it adds is one of the callback registered, between those of the slots around it. */
  lemma SubscribedCallbackIsCalled(hs: seq<Handler>, f: string, fp: nat, default: Option<nat>, m: Message)
    requires FirstSlot(hs, None) < |hs| && Topics.Matches(Topics.Levels(f), Topics.Levels(m.topic))
    ensures var k := FirstSlot(hs, None);
      SlotCalls(hs, k, m) <= SlotCalls(hs, |hs|, m) &&
      Dispatch(Register(hs, f, fp), default, m) ==
        SlotCalls(hs, k, m) + [Call(fp, m)] + SlotCalls(hs, |hs|, m)[|SlotCalls(hs, k, m)|..]
  {
    var k := FirstSlot(hs, None);
    OneSlotMore(hs, Register(hs, f, fp), k, |hs|, fp, m);
  }

  /** One slot of a table comes to listen; the calls of the first n slots before and after. */
  lemma {:induction false} OneSlotMore(hs: seq<Handler>, hs': seq<Handler>, k: nat, n: nat, fp: nat, m: Message)
    requires k < n <= |hs| == |hs'| && hs' == hs[k := hs'[k]]
    requires !Listens(hs[k], m.topic) && Listens(hs'[k], m.topic) && hs'[k].fp == Some(fp)
    ensures SlotCalls(hs, k, m) <= SlotCalls(hs, n, m)
    ensures SlotCalls(hs', n, m) == SlotCalls(hs, k, m) + [Call(fp, m)] + SlotCalls(hs, n, m)[|SlotCalls(hs, k, m)|..]
    decreases n
  {
    if n == k + 1 {
      SlotCallsDependOnListeners(hs, hs', k, m);
    } else {
      OneSlotMore(hs, hs', k, n - 1, fp, m);
      assert hs'[n - 1] == hs[n - 1];
    }
  }

  /** What the two table operations do to every slot. */
  lemma SlotsAfter(hs: seq<Handler>, f: string, fp: nat, k: nat)
    requires k < |hs|
    ensures Register(hs, f, fp)[k] == if k == FirstSlot(hs, None) then Handler(Some(f), Some(fp)) else hs[k]
    ensures Unregister(hs, f)[k] == if k == FirstSlot(hs, Some(f)) then Handler(None, hs[k].fp) else hs[k]
  {
  }
}
