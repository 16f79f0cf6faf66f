/** MQTT control packets as the two clients see them once the bytes have been parsed. */
module MqttPackets {
  const CONNECT := 1
  const CONNACK := 2
  const PUBLISH := 3
  const PUBACK := 4
  const PUBREC := 5
  const PUBREL := 6
  const PUBCOMP := 7
  const SUBSCRIBE := 8
  const SUBACK := 9
  const UNSUBSCRIBE := 10
  const UNSUBACK := 11
  const PINGREQ := 12
  const PINGRESP := 13
  const DISCONNECT := 14

  /** `tag` tells two publications apart even if all else is equal: it is not on the wire and no
      client code looks at it. The two QoS bits of the header can also hold 3. */
  datatype Message = Message(qos: nat, id: nat, topic: string, payload: string, tag: nat)

  /** `Undecodable(t)` is a packet of type t that its deserialiser rejects. */
  datatype Packet =
    | Connect
    | Connack(code: nat)
    | Publish(message: Message)
    | Puback(id: nat)
    | Pubrec(id: nat)
    | Pubrel(id: nat)
    | Pubcomp(id: nat)
    | Subscribe(id: nat, topicFilter: string, qos: nat)
    | Suback(id: nat, granted: int)
    | Unsubscribe(id: nat, topicFilter: string)
    | Unsuback(id: nat)
    | Pingreq
    | Pingresp
    | Disconnect
    | Undecodable(ptype: nat)

  function TypeOf(p: Packet): int {
    match p
    case Connect => CONNECT
    case Connack(_) => CONNACK
    case Publish(_) => PUBLISH
    case Puback(_) => PUBACK
    case Pubrec(_) => PUBREC
    case Pubrel(_) => PUBREL
    case Pubcomp(_) => PUBCOMP
    case Subscribe(_, _, _) => SUBSCRIBE
    case Suback(_, _) => SUBACK
    case Unsubscribe(_, _) => UNSUBSCRIBE
    case Unsuback(_) => UNSUBACK
    case Pingreq => PINGREQ
    case Pingresp => PINGRESP
    case Disconnect => DISCONNECT
    case Undecodable(t) => t
  }

  /** Which acknowledgement answers which packet (sections 4.3.2 and 4.3.3 of MQTT 3.1.1). */
  predicate Answers(p: Packet, reply: Packet) {
    (reply.Puback? && p.Publish? && p.message.qos == 1 && p.message.id == reply.id) ||
    (reply.Pubrec? && p.Publish? && p.message.qos == 2 && p.message.id == reply.id) ||
    (reply.Pubrel? && p.Pubrec? && p.id == reply.id) ||
    (reply.Pubcomp? && p.Pubrel? && p.id == reply.id)
  }

  /** What readPacket came back with. */
  datatype Incoming = Nothing | TooLong | Received(packet: Packet)
}
