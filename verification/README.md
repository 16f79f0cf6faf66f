# Verification model of the oneM2M device SDK

The repository is an SDK for oneM2M devices: MQTT clients for mbed and FreeRTOS, the oneM2M request
printer of the Linux library, the sample agents that convert sensor data to TLV text and parse
requests, and small data structures underneath. The Dafny modules here model the parts with state,
protocols and formats, and prove what those parts promise.

* **MQTT client, packets.** `RemainingLength` and `Framing` prove that sending puts a prefix of the
  packet on the wire whatever short or failing writes happen, and that reading a stream of frames
  returns them one by one. `PacketIds` gives the closed form of the identifier sequence.
* **MQTT client, messages.** `Topics` proves the two-cursor matching loop against level lists and
  compares it with section 4.7.1 of MQTT 3.1.1. `Handlers` says which callbacks a message reaches.
* **MQTT client, QoS 2.** `Qos2Ids` shows that the fixed array is a bounded set. `MbedClient` is the
  client as a class whose `DoCycle` is proved against the function `Cycle` and against clauses on what a
  pass delivers, answers, pings, stores and returns; `PassLaws` counts deliveries, acknowledgements and
  pings over runs of passes. `Qos2Protocol` puts that function beside a broker that follows section
  4.3.3 of MQTT 3.1.1 and two FIFO channels, and proves at-most-once delivery over all runs,
  exactly-once delivery at PUBCOMP, that runs with a full table or a dropped session break them, and
  when a session can be dropped without harm.
* **MQTT client, connection.** `Connection` is the FreeRTOS client; a history of events says when
  `isconnected` may be set, which packets may be sent, and what each of them answers.
* **Sensor data.** `RingList` is the circular doubly linked list on the heap, `TlvMaker` the cached
  instance over it, `TlvCodec` the format with its inverse, `Content` the global accumulator, and
  `SensorReport` the whole chain with its round trip.
* **oneM2M requests.** `XmlRequest` prints requests through the C string operations of `CStrings`;
  `XmlParser` is the tag search of the agent, over `StringSearch`; `XmlItems` and `XmlRoundTrip` prove
  what a search of a printed payload finds, and `XmlFields` says it for every field of every kind of
  resource. `Telemetry` joins this to the sensor data: what a search for the content of a printed
  request finds decodes to the chunks that were reported.
* **Small structures.** `CircularBuffers` is the overwriting ring buffer, `SocketPool` the bitmask
  allocator over a pool of three blocks.

The environment appears as parameters. `Framing.Network` carries a byte stream and scripts of short
or failing reads and writes; a timer is a finite budget of checks. In the two clients, the outcome of
sending and the packets that arrive are arguments, pass by pass. Publishing a oneM2M request yields an
arbitrary result code. Memory gained by `realloc` has arbitrary contents. `char` is an unsigned byte,
as on ARM.

Where comments and code disagree, the code is followed: a failed read of the FreeRTOS client is the
value 65535, because -1 is stored in an unsigned short (`NO_PACKET`); the topic matching of both
clients is narrower than the standard (`StandardGap`); accumulated content is given up even when its
request fails its checks or is not published (`LosingRuns`); names longer than seven characters spoil
the parsed value, and one of seven fails behind a longer name that begins with it
(`LongNamesSpoilTheValue`, `SevenCharactersFail`); a subscription granted QoS 0 by the broker succeeds
with a full handler table and registers nothing (`Subscribe`); a stream that breaks off in a length
field can pass for an empty packet (`EndsInLength`); a remaining-length error still leaves
the four bytes read as a number (`DecodePacket`).

## Model

| member | source | states |
|---|---|---|
| Qos2Protocol.AtMostOnce | mbed/Library/MQTT/MQTTClient.h:544-599 | In every run that does not drop the session (resends, reconnects, failed PUBREC sends and repeated PUBRELs included), no QoS 2 publication reaches deliverMessage twice, and no identifier is stored twice |
| Qos2Protocol.ExactlyOnceWhenCompleted | mbed/Library/MQTT/MQTTClient.h:544-599 | If publications in flight never outnumber the slots, a publication whose PUBCOMP reached the broker was delivered exactly once |
| Qos2Protocol.NextKeeps | mbed/Library/MQTT/MQTTClient.h:544-599 | Every step of broker, channels and client except a dropped session keeps the per-identifier invariant (order of PUBLISH/PUBREL and PUBREC/PUBCOMP in the channels, what is stored, how often it was delivered) |
| Qos2Protocol.RunKeeps | mbed/Library/MQTT/MQTTClient.h:544-599 | The invariant over whole runs from any state that satisfies it |
| Qos2Protocol.CanAlwaysComplete | mbed/Library/MQTT/MQTTClient.h:544-599 | From every reachable state, reconnecting and resending completes any publication in flight |
| Qos2Protocol.LostExactlyWhenFull | mbed/Library/MQTT/MQTTClient.h:558-582 | Whatever happens to the reply, a QoS 2 PUBLISH is neither delivered nor known from before exactly when every slot holds another identifier; the PUBREC goes out exactly when sending succeeds |
| Qos2Protocol.FullTableCompletesUndelivered | mbed/Library/MQTT/MQTTClient.h:558-582 | In any state of the invariant with a full table of other identifiers, the publication is completed at the broker and never delivered |
| Qos2Protocol.OnePublicationTooMany | mbed/Library/MQTT/MQTTClient.h:558-582 | For every table size there is such a run from the initial state: with one publication more than slots, the last one is completed undelivered. The proviso of exactly-once is needed |
| Qos2Protocol.DroppedSessionRedelivers | mbed/Library/MQTT/MQTTClient.h:255-273 | After cleanSession an unacknowledged publication is resent and delivered once more |
| Qos2Protocol.DroppedSessionDeliversTwice | mbed/Library/MQTT/MQTTClient.h:255-273 | For every non-empty table there is such a run from the initial state with two deliveries of one publication. The proviso of at-most-once is needed |
| Qos2Protocol.SettledDropIsHarmless | mbed/Library/MQTT/MQTTClient.h:255-273 | Dropping the session does no harm in any later run if each delivered publication in flight waits for its PUBCOMP only and no copy of it is on its way |
| Qos2Protocol.DropIsHarmlessExactlyWhenSettled | mbed/Library/MQTT/MQTTClient.h:255-273 | With a table no shorter than the channel to the client, that condition is exact: if it fails, some later run delivers a publication twice |
| Qos2Protocol.CopyIsDelivered | mbed/Library/MQTT/MQTTClient.h:558-582 | A copy under way to a client that does not know it is delivered when there are more free slots than packets in front of it |
| Qos2Protocol.PubrecIsExpected | mbed/Library/MQTT/MQTTClient.h:571-582 | In a reachable state the broker knows the identifier of every PUBREC on its way |
| Qos2Protocol.PassesKeepDistinct | mbed/Library/MQTT/MQTTClient.h:286-325 | Whatever packets arrive, from any broker, the identifier table never holds an identifier twice |
| Qos2Ids.FreeMeansAbsent | mbed/Library/MQTT/MQTTClient.h:286-296 | isQoS2msgidFree is non-membership in the stored set |
| Qos2Ids.UseInserts | mbed/Library/MQTT/MQTTClient.h:299-311 | useQoS2msgid adds an absent identifier to the set, or reports full exactly when the set has as many elements as slots |
| Qos2Ids.FreeRemoves | mbed/Library/MQTT/MQTTClient.h:314-325 | freeQoS2msgid removes the identifier from the set although it clears one slot only |
| Qos2Ids.StoredSize | mbed/Library/MQTT/MQTTClient.h:286-325 | A table without repetitions has a free slot exactly when it stores fewer identifiers than it has slots |
| MbedClient.Client.IsQoS2MsgIdFree | mbed/Library/MQTT/MQTTClient.h:286-296 | The loop over the array decides non-membership |
| MbedClient.Client.UseQoS2MsgId | mbed/Library/MQTT/MQTTClient.h:299-311 | The loop fills the first free slot of the array and nothing else, or changes nothing |
| MbedClient.Client.FreeQoS2MsgId | mbed/Library/MQTT/MQTTClient.h:314-325 | The loop clears the first slot with the identifier |
| MbedClient.Client.OnPublish | mbed/Library/MQTT/MQTTClient.h:544-582 | A message of QoS other than 2 is delivered before its reply, one of QoS 2 exactly if its identifier is not stored and a slot is free; the reply is PUBACK or PUBREC, and a QoS of 3 fails |
| MbedClient.Client.DoCycle | mbed/Library/MQTT/MQTTClient.h:523-613 | One pass, clause by clause: which message is delivered, which packet is the answer and that it comes before any ping, when a ping goes out and is outstanding, which identifiers are stored or freed, and what is returned, for every packet type and failure; callbacks run exactly for the delivered message |
| MbedClient.CycleLaws | mbed/Library/MQTT/MQTTClient.h:523-640 | The same clauses for the function the method is proved against |
| PassLaws.OrdinaryDelivered | mbed/Library/MQTT/MQTTClient.h:544-557 | Over every run of passes, the delivered messages of QoS other than 2 are the old ones followed by exactly those that arrive, each once and in order |
| PassLaws.PubackMeansDelivered | mbed/Library/MQTT/MQTTClient.h:556-570 | A pass sends PUBACK for an identifier exactly when it has read a QoS 1 message with it, delivered that message, and sending succeeds |
| PassLaws.PingsAwaitResponses | mbed/Library/MQTT/MQTTClient.h:600-640 | Over every run, each ping but the last has been answered before the next goes out; with keep-alive off there are none |
| PassLaws.WaitSends | mbed/Library/MQTT/MQTTClient.h:644-657 | What a wait sends is what its passes send |
| MbedClient.CycleIsSwitch | mbed/Library/MQTT/MQTTClient.h:523-613 | A pass is the switch on the packet read, then the keep-alive check unless the switch ended the pass |
| MbedClient.Client.WaitFor | mbed/Library/MQTT/MQTTClient.h:644-657 | The passes made are those of `Wait`, with every state change, packet sent and callback on the way; the awaited type is returned exactly when one of them returned it, and the read buffer then holds that packet |
| MbedClient.WaitIsPasses | mbed/Library/MQTT/MQTTClient.h:644-657 | Waiting makes passes until the first that returns the type, or all of them |
| MbedClient.AnswerIsFirst | mbed/Library/MQTT/MQTTClient.h:644-657 | The answer to a request is the first packet of the awaited type among those that arrive |
| MbedClient.Client.KeepAlive | mbed/Library/MQTT/MQTTClient.h:616-640 | A PINGREQ goes out and becomes outstanding exactly when keep-alive is on, a timer has run out, none is outstanding and sending succeeds |
| MbedClient.Client.DeliverMessage | mbed/Library/MQTT/MQTTClient.h:471-499 | The callbacks made are exactly those of `Dispatch`; SUCCESS iff there was one |
| MbedClient.Client.CleanSession | mbed/Library/MQTT/MQTTClient.h:255-273 | All filters, stored identifiers, the outstanding ping and the connection are forgotten; attached callbacks stay |
| MbedClient.Client.Subscribe | mbed/Library/MQTT/MQTTClient.h:726-770 | The request goes out with the next identifier and passes are made until the answer. No answer gives FAILURE and a refusal 0x80; a granted QoS, or an answer that cannot be parsed, gives SUCCESS with callback and filter in the first free slot; with a full table it gives the granted QoS, so that 0 is a SUCCESS that registers nothing. Every code but SUCCESS cleans the session, and only those |
| MbedClient.Client.Unsubscribe | mbed/Library/MQTT/MQTTClient.h:773-814 | SUCCESS exactly when an UNSUBACK arrives in time; then the state is that of the passes, and the first slot with that very filter is freed unless the answer cannot be parsed; every failure cleans the session |
| MbedClient.Client.DisconnectSession | mbed/Library/MQTT/MQTTClient.h:922-936 | The connection ends whether or not DISCONNECT goes out; identifiers and handlers survive exactly without cleansession |
| Handlers.DispatchOncePerListener | mbed/Library/MQTT/MQTTClient.h:471-499 | A message reaches each attached handler whose filter matches, once, in slot order; the default handler exactly when there is none |
| Handlers.UnsubscribeUndoesSubscribe | mbed/Library/MQTT/MQTTClient.h:751-804 | Subscribing to a new filter and unsubscribing again leaves the dispatch of every message unchanged |
| Handlers.SubscribeAddsOneListener | mbed/Library/MQTT/MQTTClient.h:751-760 | A registered filter adds one listener to the topics it matches and changes no other topic |
| Handlers.SubscribedCallbackIsCalled | mbed/Library/MQTT/MQTTClient.h:751-760 | A message that matches reaches the registered callback, between the calls of the slots before and behind |
| Handlers.SlotsAfter | mbed/Library/MQTT/MQTTClient.h:751-804 | Slot by slot: registering changes the first free slot only, unregistering the first with that very filter only |
| Topics.IsTopicMatched | mbed/Library/MQTT/MQTTClient.h:438-467 | For every well-formed filter and every name the loop returns true iff the level lists match |
| Topics.MatchesIsStandardMinusEmpty | mbed/Library/MQTT/MQTTClient.h:438-467 | The accepted pairs are those of section 4.7.1 of MQTT 3.1.1 except where a wildcard faces an empty level or a final `#` faces the end of the name |
| Topics.StandardGap | mbed/Library/MQTT/MQTTClient.h:438-467 | Concrete names the standard matches and the loop does not |
| Topics.StandardOnEveryName | mbed/Library/MQTT/MQTTClient.h:438-467 | Over the names a publisher may use (not empty, no wildcards), a filter agrees with the standard on all of them exactly when it has no wildcard level or is the single level `+` |
| Topics.LevelsOfJoin | mbed/Library/MQTT/MQTTClient.h:438-467 | Cutting a joined name gives its levels back |
| Topics.EqualTopicsMatch | mbed/Library/MQTT/MQTTClient.h:479-480 | The equality test tried first accepts nothing the loop rejects |
| Topics.LevelsOfTopic | mbed/Library/MQTT/MQTTClient.h:438-467 | Levels are the text cut at every separator and nowhere else |
| RemainingLength.EncodeDecode | mbed/Library/MQTT/MQTTPacket/MQTTPacket.c:28-44 | Every number up to 268435455 is encoded in one to four bytes and decodes to itself |
| RemainingLength.EncodeIsMinimal | mbed/Library/MQTT/MQTTPacket/MQTTPacket.c:28-44 | No length field of the same value is shorter than the encoding |
| RemainingLength.EncodingTable | mbed/Library/MQTT/MQTTPacket/MQTTPacket.c:28-44 | The bounds of one to four bytes are those of table 2.4 of MQTT 3.1.1 |
| RemainingLength.FieldLengthOf | mbed/Library/MQTT/MQTTClient.h:359-385 | The decoding loop consumes exactly the bytes of a length field, whatever follows |
| Framing.EncodeLength | mbed/Library/MQTT/MQTTPacket/MQTTPacket.c:28-44 | The loop writes the section 2.2.3 encoding at the offset and leaves the rest of the buffer alone |
| Framing.Transport.DecodePacket | mbed/Library/MQTT/MQTTClient.h:359-385 | At most four reads; the value is that of the bytes consumed, which are the whole field when reads do not fail; neither the value nor the multiplier leaves 32 bits |
| Framing.Transport.SendPacket | mbed/Library/MQTT/MQTTClient.h:329-356 | For any short, zero or failing writes the wire gains a prefix of the packet; SUCCESS iff it is all of it |
| Framing.Transport.ReadPacket | mbed/Library/MQTT/MQTTClient.h:394-435 | No write past the buffer on any stream and any reads; with full reads the result, the buffer and the rest of the stream are those of `ReadOne` |
| Framing.ReadOneFrame | mbed/Library/MQTT/MQTTClient.h:394-435 | One call takes one frame and stops at the next; a frame too long for the buffer is reported and leaves its body in the stream |
| Framing.EndsInBody | mbed/Library/MQTT/MQTTClient.h:394-435 | A stream that ends inside a body makes the call fail |
| Framing.EndsInLength | mbed/Library/MQTT/MQTTClient.h:359-435 | A stream that ends inside a length field makes the call fail, unless the bits read so far are all zero: then it returns the type of an empty packet |
| Framing.FrameSynchronisation | mbed/Library/MQTT/MQTTClient.h:394-435 | On a stream of frames that fit, call k returns the type of frame k, leaves it in the buffer with its length re-encoded minimally, and stops at the next frame's first byte |
| PacketIds.PacketId.GetNext | mbed/Library/MQTT/MQTTClient.h:67-83 | The identifier follows the counter and is never 0 |
| PacketIds.NthClosedForm | FreeRTOS/Library/Mqtt_Paho/MQTTClient.c:24-26 | The n-th identifier is (counter - 1 + n) mod 65535 + 1, from any counter state |
| PacketIds.NthRepeats | mbed/Library/MQTT/MQTTClient.h:67-83 | Two identifiers are equal exactly when a multiple of 65535 calls lies between |
| PacketIds.WindowDistinct | mbed/Library/MQTT/MQTTClient.h:67-83 | Any 65535 consecutive identifiers are pairwise distinct |
| Connection.RequestsFollowHandshake | FreeRTOS/Library/Mqtt_Paho/MQTTClient.c:355-557 | In every legal history each SUBSCRIBE, UNSUBSCRIBE and PUBLISH was preceded by CONNECT sent in full and a CONNACK with code 0, with no disconnect since |
| Connection.RepliesAnswer | FreeRTOS/Library/Mqtt_Paho/MQTTClient.c:240-277 | In every legal history PUBACK stands straight behind the QoS 1 PUBLISH it answers, PUBREC behind the QoS 2 PUBLISH, PUBREL behind the PUBREC; nothing else that only a broker sends is ever sent |
| Connection.LegalAppend | FreeRTOS/Library/Mqtt_Paho/MQTTClient.c:355-582 | How each event extends a legal history and changes whether it is open |
| Connection.Client.Cycle | FreeRTOS/Library/Mqtt_Paho/MQTTClient.c:223-287 | The events of one pass are the packet read, its answer if it needs one and sending succeeds, and then a ping exactly when one is due; a failed answer returns FAILURE, any other pass the type of the packet, which is still in the read buffer |
| Connection.Client.WaitFor | FreeRTOS/Library/Mqtt_Paho/MQTTClient.c:340-352 | The type is returned exactly when some pass returns it, and the read buffer then holds the packet of the first such pass, the last one read |
| Connection.Client.Connect | FreeRTOS/Library/Mqtt_Paho/MQTTClient.c:355-403 | The code of the first CONNACK that arrives in time after CONNECT went out in full, otherwise FAILURE; `isconnected` is set exactly on 0; an open client refuses and changes nothing |
| Connection.Client.Subscribe | FreeRTOS/Library/Mqtt_Paho/MQTTClient.c:406-458 | Only while connected, with the next identifier; the return code for every answer as in the mbed client, and callback and filter go to the first free slot exactly on a granted answer |
| Connection.Client.Unsubscribe | FreeRTOS/Library/Mqtt_Paho/MQTTClient.c:461-497 | Only while connected; SUCCESS exactly when the request went out and an UNSUBACK arrived in time; handlers and connection stay as they are |
| Connection.Client.Publish | FreeRTOS/Library/Mqtt_Paho/MQTTClient.c:500-557 | Only while connected, with a fresh identifier for QoS 1 and 2; QoS 0 succeeds exactly when it is sent, QoS 1 exactly on a PUBACK and QoS 2 exactly on a PUBCOMP that can be parsed |
| Connection.Client.Disconnect | FreeRTOS/Library/Mqtt_Paho/MQTTClient.c:560-582 | The connection is closed even if DISCONNECT cannot be sent |
| RingList.DMList.Add | linux/samples/SRA/List.c:45-67 | Appends one fresh node at the end of the ring; the others stay in place and order |
| RingList.DMList.Remove | linux/samples/SRA/List.c:69-88 | Unlinks the last node; null exactly on an empty list |
| RingList.DMList.GetNode | linux/samples/SRA/List.c:91-107 | The first node that compares equal, or null when there is none |
| RingList.DMList.Close | linux/samples/SRA/List.c:28-43 | Releases every element and frees every node exactly once, in order, touching no freed node, and terminates |
| RingList.NextAndPrevAreInverse | linux/samples/SRA/List.c:45-88 | `next` and `prev` undo each other on every node |
| RingList.RingVisitsEveryNodeOnce | linux/samples/SRA/List.c:91-107 | The first `count` steps from the head visit every node exactly once; the next is the head again |
| TlvCodec.ParseSerialize | linux/samples/SRA/TLVMaker.c:173-184 | Parsing the binary form gives back every chunk, tags, lengths and values, in order |
| TlvCodec.SerializeParse | linux/samples/SRA/TLVMaker.c:173-184 | Whatever parses is the binary form of its chunks, so no two chunk lists share one |
| TlvCodec.ChunkAt | linux/samples/SRA/TLVMaker.c:173-184 | Each chunk lies behind those before it: tag, length, value |
| TlvCodec.UnhexHex | linux/samples/SRA/TLVMaker.c:186-188 | The hex text decodes to the bytes it was made of |
| TlvCodec.HexAt | linux/samples/SRA/TLVMaker.c:186-188 | Each byte gives two lower-case digits, the high one first |
| TlvMaker.TlvContext.Push | linux/samples/SRA/TLVMaker.c:118-127 | Appends the chunk, marks the instance stale, and both counters stay true modulo 65536 |
| TlvMaker.TlvContext.Pop | linux/samples/SRA/TLVMaker.c:129-147 | Takes the last chunk back off, with both counters; null exactly on an empty list |
| TlvMaker.TlvContext.Make | linux/samples/SRA/TLVMaker.c:149-193 | Afterwards a non-empty context is clean and its instance is the hex text of the current chunks; an empty one is left as it was |
| TlvMaker.TlvContext.Build | linux/samples/SRA/TLVMaker.c:168-191 | The nested loops fill both buffers exactly: hex of the serialised chunks and a terminator |
| TlvMaker.TlvContext.GetSize | linux/samples/SRA/TLVMaker.c:201-209 | On a clean context the length of the text, computed from the counters alone; 0 on a stale one |
| TlvMaker.TlvContext.Destroy | linux/samples/SRA/TLVMaker.c:59-72 | Every chunk pushed and not popped is released once |
| TlvMaker.CountersOfPush | linux/samples/SRA/TLVMaker.c:118-147 | Unsigned-short counters go up with a push and come back with a pop, wrap-around included |
| TlvMaker.SizeFromCounters | linux/samples/SRA/TLVMaker.c:168-209 | With counters below 65536, twice the count plus the value length is the size of the binary form |
| Content.Device.AddData | linux/src/oneM2M_V1/oneM2M_V1.c:390-409 | The text grows by exactly the data up to its first NUL; a null pointer or length 0 fails and changes nothing; by how much `len` is off grows by what the NUL cut off |
| Content.Device.Report | linux/src/oneM2M_V1/oneM2M_V1.c:422-447 | Accumulated or given content goes out as it is, and only the accumulated one is given up, whether or not the request passes its checks or is published; the return code for every combination |
| Content.KeptExactlyWhenDelivered | linux/src/oneM2M_V1/oneM2M_V1.c:390-447 | Over every run of additions and reports: the text of all requests and the text still held are all that was added, in order; all of it was published or is still held exactly when every report of accumulated text that was not empty had `to`, `ri` and a publishing code of 0 |
| Content.GivenGoesOut | linux/src/oneM2M_V1/oneM2M_V1.c:422-447 | Over every run, the contents of the requests that do not carry accumulated text are exactly those given to reports, in order, and such reports leave the accumulated text alone |
| Content.LosingRuns | linux/src/oneM2M_V1/oneM2M_V1.c:422-447 | Two runs that lose what was added: a failed publication, and a missing request id |
| Content.NoExcess | linux/src/oneM2M_V1/oneM2M_V1.c:390-409 | `len` stays the true string length exactly when the data has no NUL |
| SensorReport.TextsConcatenate | linux/samples/SRA/SRA.c:177-224 | The texts of separate pieces, end to end, are the text of all their chunks |
| SensorReport.DecodeAccumulated | linux/samples/SRA/SRA.c:177-224 | Hex-decoding and parsing the accumulated text gives back the chunks of all pieces, in order |
| SensorReport.Convert | linux/samples/SRA/SRA.c:177-224 | Creating, pushing, making and copying yields the text of the chunks |
| SensorReport.ReportPieces | linux/samples/MA/MA.c:213-260 | Converting, adding and reporting any list of pieces of at most 255 characters, on top of whatever chunks are held already, makes one request whose content decodes to all of them in order |
| TlvCodec.TextOfDecoded | linux/samples/SRA/TLVMaker.c:173-188 | A text that decodes is the text of its chunks |
| SensorReport.PieceGoesInWhole | linux/src/oneM2M_V1/oneM2M_V1.c:390-409 | Because its length is an unsigned char, a piece goes in whole exactly when its text has at most 255 characters |
| CStrings.StrNCat | linux/src/oneM2M_V1/oneM2M_V1.c:398-402 | Appends up to n characters before a NUL, terminates, and leaves the rest of the buffer alone |
| StringSearch.StrNStr | linux/samples/MA/MA.c:316-334 | For a non-empty needle, the leftmost occurrence lying wholly within the first `slen` characters, or none exactly when there is none |
| StringSearch.CommandTopics | linux/samples/MA/MA.c:53-54 | Every request topic has "req" within its first twelve characters, no response topic has, for all ids |
| StringSearch.IsCmd | linux/samples/MA/MA.c:336-338 | Found exactly when "req" lies within the first twelve characters |
| XmlParser.SimpleXmlParser | linux/samples/MA/MA.c:276-298 | Copies exactly the characters between the first opening and the first closing tag of the region searched; without a closing tag nothing |
| XmlParser.LongNamesSpoilTheValue | linux/samples/MA/MA.c:276-298 | From eight characters on, what is found begins with the rest of a tag that begins like the one looked for, so a value without `>` never comes back whole |
| XmlParser.LongNameKeepsItsRest | linux/samples/MA/MA.c:276-298 | If no tag before it begins alike, the value is found behind the cut-off rest of its opening tag |
| XmlParser.WholeByCoincidence | linux/samples/MA/MA.c:276-298 | A value with `>` that does come back whole, from an earlier tag |
| XmlParser.ShortNameComesBack | linux/samples/MA/MA.c:276-298 | The value of the first element of a name of at most seven characters comes back whole exactly when no earlier closing tag is confused with its own: one of the same name, or for seven characters one of any name that begins with it. Otherwise the closing tag found lies in front of the value, and the length of the copy is negative |
| XmlParser.SevenCharactersFail | linux/samples/MA/MA.c:276-298 | A seven-character name that fails |
| XmlParser.SearchItems | linux/samples/MA/MA.c:276-298 | For any name and any marked-up text: what lies between the first opening and the first closing tag that begin like the ones looked for, or nothing if the closing one comes first |
| XmlParser.CutStarts | linux/samples/MA/MA.c:276-298 | Which tags begin like a tag cut to the ten-byte buffer |
| XmlParser.BetweenElements | linux/samples/MA/MA.c:276-298 | Among printed elements the search returns the first value of the name |
| XmlItems.FindItem | linux/samples/MA/MA.c:276-298 | A tag search of marked-up text stops at the first item that starts with the tag |
| XmlItems.TagStarts | linux/samples/MA/MA.c:276-298 | A whole tag begins exactly the items it is the tag of: no name is found inside another |
| XmlRequest.SetElement | linux/src/oneM2M_V1/oneM2M_V1.c:27-38 | Appends the non-null attributes in order, each cut to its 512-byte buffer |
| XmlRequest.SetPCElement | linux/src/oneM2M_V1/oneM2M_V1.c:47-57 | Appends the attributes wrapped in the resource and `pc` tags |
| XmlRequest.SetHeader | linux/src/oneM2M_V1/oneM2M_V1.c:67-87 | Appends header, operation, target and request id, and the resource type on CREATE only |
| XmlRequest.Request | linux/src/oneM2M_V1/oneM2M_V1.c:163-291 | A request that fails its checks publishes nothing and returns their code; any other publishes header, attributes, `pc` block and footer of its resource |
| XmlRequest.SupportedOperations | linux/src/oneM2M_V1/oneM2M_V1.c:105-144 | Which resources can be retrieved, updated, created and deleted |
| XmlRequest.CheckedRequests | linux/src/oneM2M_V1/oneM2M_V1.c:105-152 | What each code of the checks means; unknown resource types are never accepted |
| XmlRoundTrip.PayloadRendered | linux/src/oneM2M_V1/oneM2M_V1.c:27-94 | The printed payload is the rendering of a balanced list of tags and texts, with the null attributes absent |
| XmlRoundTrip.PrintThenParse | linux/samples/MA/MA.c:276-298 | For all attribute lists free of `<` that fit the buffers: searching the printed payload for a name of at most six characters gives its first value, with `isPC` the first value inside `pc`, and without a value there is no closing tag, so nothing is copied |
| XmlRoundTrip.RequestRoundTrip | linux/src/oneM2M_V1/oneM2M_V1.c:163-291 | The same for the attributes of every resource type and operation, absent names included |
| XmlRoundTrip.PcRoundTrip | linux/samples/MA/MA.c:276-298 | Inside `pc` the value found is the one of the `pc` block, even if the header has the same tag, and nothing if the block has none |
| XmlRoundTrip.PassCodeIsSpoilt | linux/samples/MA/MA.c:276-298 | The eight-character `passCode` of every printed remoteCSE request is found with a `>` in front of it |
| XmlFields.HeaderFields | linux/src/oneM2M_V1/oneM2M_V1.c:67-87 | A search finds the target, the request id, the operation read back as a number if it has one digit, as its buffer does, and the resource type exactly on CREATE |
| XmlFields.TypeNumbers | linux/src/oneM2M_V1/oneM2M_V1.c:67-87 | The number found for each of the ten kinds of resource |
| XmlFields.FrontFields | linux/src/oneM2M_V1/oneM2M_V1.c:171-285 | For all ten kinds a search finds originator, device key, user key and name in the fields of that meaning, or nothing where the kind has none |
| XmlFields.NothingElse | linux/src/oneM2M_V1/oneM2M_V1.c:163-291 | A name of neither header nor any kind of resource is not found |
| XmlFields.PcPresence | linux/src/oneM2M_V1/oneM2M_V1.c:171-285 | The `pc` block is there exactly unless the resource is a CSEBase or is deleted without being an execInstance |
| XmlFields.PcTags | linux/src/oneM2M_V1/oneM2M_V1.c:47-57 | The tag the `pc` block of each kind opens with |
| XmlFields.PcField | linux/src/oneM2M_V1/oneM2M_V1.c:171-285 | Inside `pc` each name finds its own value: the names of a kind differ from one another and from its tag |
| XmlFields.PcNothingElse | linux/src/oneM2M_V1/oneM2M_V1.c:171-285 | Inside `pc` no other name is found |
| XmlFields.NodeFields | linux/src/oneM2M_V1/oneM2M_V1.c:183-188 | What the names inside `pc` find, in the fields of the resource |
| XmlFields.RemoteCSEFields | linux/src/oneM2M_V1/oneM2M_V1.c:194-199 | What the names inside `pc` find, in the fields of the resource |
| XmlFields.ContainerFields | linux/src/oneM2M_V1/oneM2M_V1.c:205-210 | What the names inside `pc` find, in the fields of the resource |
| XmlFields.MgmtCmdFields | linux/src/oneM2M_V1/oneM2M_V1.c:216-221 | What the names inside `pc` find, in the fields of the resource |
| XmlFields.ContentInstanceFields | linux/src/oneM2M_V1/oneM2M_V1.c:227-232 | What the names inside `pc` find, in the fields of the resource |
| XmlFields.LocationPolicyFields | linux/src/oneM2M_V1/oneM2M_V1.c:238-243 | What the names inside `pc` find, in the fields of the resource |
| XmlFields.AEFields | linux/src/oneM2M_V1/oneM2M_V1.c:249-254 | What the names inside `pc` find, in the fields of the resource |
| XmlFields.AreaNwkInfoFields | linux/src/oneM2M_V1/oneM2M_V1.c:260-265 | What the names inside `pc` find, in the fields of the resource |
| XmlFields.MgmtCmdResultFields | linux/src/oneM2M_V1/oneM2M_V1.c:271-275 | What the names inside `pc` find, in the fields of the resource |
| Telemetry.ContentComesBack | linux/samples/MA/MA.c:276-298 | The content found inside `pc` of a printed contentInstance request decodes to every chunk that was converted and added, in order |
| Telemetry.ShortRequestsFit | linux/src/oneM2M_V1/oneM2M_V1.c:27-94 | A contentInstance request with at most 400 characters inside `pc` and 150 in front of it, free of NUL and `<`, fits every buffer and is cut nowhere |
| Telemetry.ShortContentComesBack | linux/samples/MA/MA.c:276-298 | So in every such request all chunks come back |
| CircularBuffers.CircularBuffer.Push | mbed/mbed/CircularBuffer.h:41-53 | The newest element joins; a full buffer gives up its oldest, and pushed = popped + overwritten + discarded + held |
| CircularBuffers.CircularBuffer.Pop | mbed/mbed/CircularBuffer.h:60-71 | Takes the oldest element; an empty buffer leaves the caller's variable alone |
| CircularBuffers.CircularBuffer.IsEmpty | mbed/mbed/CircularBuffer.h:77-82 | Decides whether nothing is held |
| CircularBuffers.CircularBuffer.IsFull | mbed/mbed/CircularBuffer.h:88-93 | Decides whether all cells are held |
| CircularBuffers.CircularBuffer.Reset | mbed/mbed/CircularBuffer.h:98-104 | Discards what is held and nothing else |
| CircularBuffers.PushWindow | mbed/mbed/CircularBuffer.h:41-53 | Moving head and tail modulo the size is appending to the window of cells and dropping its first when full |
| CircularBuffers.PopWindow | mbed/mbed/CircularBuffer.h:60-71 | Moving the tail is dropping the first of the window |
| CircularBuffers.RunAll | mbed/mbed/CircularBuffer.h:41-104 | In every run of pushes, pops and resets the held elements are the latest pushes in order, and what was popped came out in push order |
| CircularBuffers.PushesKeepTheLatest | mbed/mbed/CircularBuffer.h:41-53 | Pushes alone leave all of them, or the last BufferSize |
| SocketPool.WizSystem.SockPoolAlloc | FreeRTOS/Library/Ethernet_WIZNet/wizSystem.c:59-82 | Null exactly when three handles are live; otherwise a new handle with the lowest clear bit, which is set; a block is never handed back to the pool and returned |
| SocketPool.WizSystem.TakeLowest | FreeRTOS/Library/Ethernet_WIZNet/wizSystem.c:66-78 | With fewer than three live handles the search always finds a clear bit, the lowest |
| SocketPool.WizSystem.SockPoolFree | FreeRTOS/Library/Ethernet_WIZNet/wizSystem.c:87-94 | Clears the bit of this handle only, closes its socket once and returns its block; null does nothing |
| SocketPool.FreeSocketExists | FreeRTOS/Library/Ethernet_WIZNet/wizSystem.c:59-82 | Pigeonhole: fewer than three holders leave one of the first three sockets free |
| SocketPool.MirrorsOneMore | FreeRTOS/Library/Ethernet_WIZNet/wizSystem.c:72-73 | Setting the bit keeps the correspondence of bits and live handles one to one |
| SocketPool.MirrorsOneLess | FreeRTOS/Library/Ethernet_WIZNet/wizSystem.c:91 | Clearing the bit keeps it one to one |
| SocketPool.AllocThenFree | FreeRTOS/Library/Ethernet_WIZNet/wizSystem.c:59-94 | A handle allocated and freed leaves live handles and bits as they were |

## Left out

- Sockets, TLS, DHCP, DNS, SPI, GPIO and start-up code: plumbing over libraries; reads, writes and timers are modelled as scripts, outcomes and budgets.
- `MQTTSerialize_*` and `MQTTDeserialize_*`: the clients work on parsed packets; one that a deserialiser rejects is `Undecodable`, and a truncated packet that one accepts is not modelled.
- The QoS 2 branches are modelled as enabled; the default build of the mbed client switches them off.
- Packets too long for the read buffer in QoS 2 runs: Qos2Protocol's client receives every packet whole; one beyond the buffer (100 bytes by default) is `TooLong` in `Cycle` and leaves its body in the stream (`Framing.ReadOneFrame`).
- connect, publish and yield of the mbed client: the FreeRTOS ones are modelled; only cycle, waitfor, subscribe, unsubscribe and disconnect are modelled here.
- Qos2Protocol.DropIsHarmlessExactlyWhenSettled: with more packets on the way than slots only the sufficient half is stated (`SettledDropIsHarmless`); whether a copy then finds a slot depends on the replies of the passes before it.
- Outgoing QoS 2 and resending on connect in the mbed client: the preprocessor drops the first, and a failed publish cleans the session.
- The FreeRTOS sendPacket, readPacket and deliverMessage: the mbed versions are modelled instead; the FreeRTOS client here sees whole packets.
- `last_sent` and `last_received`: whether a keep-alive timer has run out is an argument of each pass.
- Framing.Transport.ReadPacket: buffers of fewer than five bytes are excluded; the default is 100. With short reads only bounds and the untouched wire are stated, since the source then has no frame to promise.
- Connection.Client.Publish: a QoS of 3 cannot be asked for, as the enumeration ends at 2.
- Mutexes, critical sections, logging, allocation failure and callbacks that re-enter the client.
- Tags of publications: `Message.tag` tells two equal publications apart in statements; no code looks at it.
- `gContent`: its struct is flattened into `data` and `len` of `Content.Device`; memory handed back to the C library is simply dropped.
- TlvMaker.TlvContext.Make: true counts are below 65536, as the counters are unsigned shorts; larger lists overrun the instance buffer in the source and are excluded.
- SetChunk on a chunk already pushed: it would change the list behind the counters and the cache.
- XmlParser.SimpleXmlParser: a closing tag without an opening tag in front of it, and a value longer than the out buffer, are undefined in the source and excluded.
- XmlRequest.Request: payloads beyond the 1024-byte buffer and `pc` attributes beyond the 512-byte buffer overrun them in the source and are excluded.
- StringSearch.StrNStr: strings are taken without their terminator and contain no NUL.
- SimpleJsonParser, the step tables of the samples, the near-duplicate version 1.12 library and the mbed list copy: they add no harder property.
- tpRegister and the other resource short-cuts: fixed attribute tables for the request that is modelled.
- Signed `char`: with it "%02x" at linux/samples/SRA/TLVMaker.c:187 turns every byte of 0x80 and above into `ff`, and the TLV round trip is false.
- CircularBuffers.CircularBuffer.Push: counters do not wrap; the buffer size is below the width of the counter type in the source.
- The buffer of a socket block: only its socket number matters to the allocator; freeing a handle twice is excluded.
