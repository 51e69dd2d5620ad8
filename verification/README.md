# A verified model of the MQTT client in Sources/MosquittoC

The repository wraps a C client library for MQTT 3.1, 3.1.1 and 5.0 (mosquitto
1.6.12, built without broker, TLS and SOCKS). This project models the parts of
that library whose correctness is hardest to see from the code, and proves what
they are for. Code that works in place is modelled in place: linked lists that
are walked and relinked, packet buffers with cursors, loops with their own
invariants. Each such method is proved against a value-level definition, and
the properties are proved about those definitions, for all inputs, all runs and
all patterns of failing or partial network operations.

| file | what it holds |
|---|---|
| `Mqtt.dfy` | result codes, protocol versions, packet codes, machine integers |
| `Utf8.dfy` | UTF-8 validation against the encoding of code points |
| `Wire.dfy`, `Packets.dfy` | byte layouts as values; the packet buffer with its cursor |
| `Repetition.dfy`, `Properties.dfy` | lists laid out back to back; MQTT 5 properties |
| `Building.dfy`, `Publishing.dfy`, `Acks.dfy`, `Connecting.dfy`, `Subscribing.dfy` | the packet builders, and readers for what they build |
| `Framing.dfy`, `Inbox.dfy`, `Outbox.dfy` | packets on a byte stream; the resumable reader; the queue and the partial writer |
| `Topics.dfy` | topic checks, matching and tokenising |
| `Inflight.dfy` | messages and the intrusive doubly linked list |
| `Delivery.dfy` | the QoS 1 and 2 state machine as a function of state and event |
| `SendWindow.dfy`, `FlowControl.dfy`, `Progress.dfy` | its send window, its quota, and what is under way |
| `History.dfy`, `Reports.dfy`, `Integrity.dfy`, `Duplicates.dfy` | what becomes of each message, what the application hears, that nothing is invented, QoS 2 on the receiving side |
| `Completeness.dfy` | that nothing is passed over: all that comes in is given to the application, all that is published with QoS 0 is sent |
| `Resume.dfy`, `Exchange.dfy`, `Ordering.dfy` | resending, replies, and order of publication |
| `Results.dfy` | what handlers and the publish call return, and when a client is active |
| `Inputs.dfy` | the start of the runs on which an expected property fails |
| `Admission.dfy`, `Client.dfy` | the checks of a publish call; the client with its fields and lists, shown to do what `Delivery.dfy` says |
| `Session.dfy` | the client reading from a socket, packet by packet; from what a run sends to what the peer hears |
| `Received.dfy` | on the bytes received, what each packet does: when a CONNACK makes a client active, what a refused one leaves alone, and which step a message or acknowledgement is |

## How the model reads the source

- Sends and socket operations have arbitrary results: the n-th send of a run
  returns `net(n)`, the n-th read or write `script(n)`. Nothing is assumed of
  them unless a property says so.
- An event is one call of the interface or one packet handled; handlers are
  atomic. Callbacks are notes in a trace.
- `Message.serial` numbers the messages of a run. The source has no such
  field; it tells apart two messages that carry the same packet identifier.
- Bit masks are written as division and remainder, unions as datatypes, an
  absent pointer as `None` or an empty list.
- Lengths are unbounded numbers; where the source narrows them (16-bit string
  lengths, 32-bit remaining length, 28-bit variable byte integers) the bound is
  written out.

## Where the code departs from what one would expect

Where an expected property fails, the item names the input and the lemma that says
when it holds.

- The send window is kept exactly by the events that `Fair` describes
  (`SendWindow.WindowExact`), a condition on the state and the event before it
  is handled. Two inputs break it. A success PUBREC for a message that has not
  been sent yet puts it ahead of older ones (`Resume.EarlyPubrecBreaksOrder`).
  A CONNACK that raises the Receive Maximum while messages wait leaves the
  window not full; quota is then lost at the next reset exactly when a QoS 2
  message within the new maximum has not been sent by then
  (`Resume.RaisedMaximumExact`, `SendWindow.ResetExact`; the input is
  `Resume.RaisedMaximumLosesQuota`). With QoS 1 messages waiting nothing is lost.
- Over fair runs messages are handed out for the first time in the order of
  publication as long as no PUBREC names a message that has never been sent
  (`Ordering.OrderAlways`); this is exactly what keeps the invariant behind it
  (`Ordering.OrderedExact`). Without it the order can be lost: the input is
  `Ordering.OvertakenByThree`.
- A message whose send was refused counts as handed out like any other, so
  messages may wait with quota left and nothing under way that would bring an
  acknowledgement (`Progress.RefusedRetryStalls`). After a reconnection
  something is under way exactly if no message has to wait or the network took
  one of the packets of the retry (`Progress.ResumedExact`), and then it stays so
  while sends succeed (`Progress.ConnectionFlows`).
- A publish call may be admitted and the message then refused when it is
  printed, because the estimate counts one byte for the packet identifier and
  one for the property length. `Admission.PrintedLengthExact` is the exact
  gap, `Admission.AdmittedComesThrough` says when an admitted message is
  printed; `Admission.AdmittedButOversize` and `Admission.AdmittedButTooLong`
  are inputs. A QoS 1 or 2 message of this kind stays in the list, marked as
  handed out, and is refused at every retry. Conversely a message that would
  fit may be refused (`Admission.RefusedThoughItFits`).
- Properties that were not made by the client, such as those of a received message,
  are copied without their link: a publish call sends the first and drops the
  others (`Admission.ForeignPropertiesCut`).
- `packet__check_oversize` does not count the command byte, so a packet may be
  one byte longer than the broker's maximum: at exactly one length
  (`Publishing.PacketSizeExact`; the input is `Publishing.OneByteTooLong`).
- `mosquitto_property_check_all` refuses a second Subscription Identifier in a
  PUBLISH, which section 3.3.2.3.8 of MQTT Version 5.0 allows. Of the lists
  that the standard accepts it takes exactly those with at most one
  (`Properties.SubscriptionIdsExact`; the input is
  `Properties.TwoSubscriptionIds`), and a client refuses such a PUBLISH
  (`Publishing.SubscriptionIdsRefused`). Conversely it takes a Subscription
  Identifier of 0, a Payload Format Indicator above 1 and a Reason String in a
  will, and in no packet anything else that the standard rules out by identifier,
  number or repetition (`Properties.AcceptedExact`, `Properties.ZeroSubscriptionId`);
  outside PUBLISH it takes all that the standard accepts
  (`Properties.OthersAccepted`).
- `mosquitto_property_check_command` accepts a Reason String in will
  properties, and nothing else that the standard does not
  (`Properties.CheckCommandExact`).
- A version 5 DISCONNECT without a reason, which section 3.14.2.1 allows, is
  refused; everything else that section 3.14.2 allows is read
  (`Client.DisconnectExact`).
- A QoS 2 PUBLISH whose identifier is still held is queued a second time, so a
  broker that resends before PUBREL makes the client deliver twice
  (`Duplicates.RepeatedPublishDeliveredTwice`). Identifiers of held messages
  stay distinct exactly as long as this does not happen
  (`Duplicates.DistinctExact`).
- `handle__pubackcomp` credits the quota before it reads the packet, so a
  malformed or unknown acknowledgement is credited too, and more messages may go
  out than the broker's maximum (`FlowControl.UnknownAckOverCredits`). Quota plus
  messages out does not grow with an event exactly if what is earned is retired
  (`FlowControl.CreditExact`); `FlowControl.CreditLaw` is the exact account.
- A message that a PUBREC refuses is reported to `on_publish_v5` only
  (`Reports.RefusedUnheard`). `Reports.ReportsExact` says which events report
  what; `on_publish` hears of every message that ends exactly in runs in which
  none is refused (`Reports.EndedHeard`).
- A command byte 0 cannot be told from no command: `Framing.PiecesExact` shows
  that reading is independent of fragmentation exactly for streams in which no
  packet starts with 0; `Framing.ZeroCommandLost` is an input.
- End of file inside a packet body is returned as an errno error, elsewhere as a
  lost connection (`Inbox.Reader.PacketRead`).
- `mosquitto_validate_utf8` notices one missing byte at the end of its input,
  but with two or three missing it reads on behind the given length:
  `Utf8.Validate` says exactly what it accepts, `Utf8.CutSequenceAccepted` is an
  input. Behind a closing NUL nothing is read (`Utf8.TerminatedExact`).
- `send__connect` counts a string of more than 65535 bytes whole but writes only
  what its length field says, so the packet is filled exactly when every field
  fits (`Connecting.SendConnect`, `Connecting.CutNothing`; an input is
  `Connecting.LongIdentifierCut`).
- Properties of 2^28 bytes and more are left out of the length of a PUBLISH,
  but their length is written: 5 bytes too many
  (`Publishing.AddedLengthExact`; an input is `Publishing.LongPropertiesOverrun`).
- `mosquitto_topic_matches_sub2` does not look behind "+/#" when the topic has
  ended: a valid filter that ends with "+" goes on matching what it matches when
  "/#" and anything else are appended (`Topics.JudgeExact`; an input is
  `Topics.TrailingMatches`). No other invalid filter, and no topic with a
  wildcard, is ever reported to match. Behind the first difference faults are
  mostly not looked for (`Topics.FaultUnnoticed`), but a wildcard in the topic is
  reported as long as the filter may still match (`Topics.WildcardReported`).
- `mosquitto_sub_topic_check2` takes a NUL for the start of a level;
  `Topics.CountedCheckExact` says on which strings that matters.

## Model

| member | source | states |
|---|---|---|
| Utf8.Validate | Sources/MosquittoC/utf8_mosq.c:22-108 | accepts exactly the shortest-form encodings of code points without NUL, controls, surrogates and non-characters, and such as are completed by two or three bytes behind the given length |
| Utf8.TerminatedExact | Sources/MosquittoC/utf8_mosq.c:33-71 | with a NUL behind the length, exactly the former |
| Utf8.CutSequenceAccepted | Sources/MosquittoC/utf8_mosq.c:66-75 | malformed bytes that are accepted for what stands behind them |
| Utf8.AcceptedStep | Sources/MosquittoC/utf8_mosq.c:66-107 | one code point inside the length decides together with the rest |
| Utf8.PastStep | Sources/MosquittoC/utf8_mosq.c:66-107 | one that ends behind the length decides alone |
| Utf8.EncodeShape | Sources/MosquittoC/utf8_mosq.c:33-74 | every encoding has the lead byte, continuation bytes and accumulated value that the byte loop reconstructs |
| Utf8.ShapeEncodes | Sources/MosquittoC/utf8_mosq.c:59-98 | conversely, bytes of that shape are the encoding of their value unless it is too small or too large |
| Utf8.FramedStep | Sources/MosquittoC/utf8_mosq.c:76-105 | one code point decides: the rest decides well-formedness exactly when the tests on this one pass |
| Wire.VarintExact | Sources/MosquittoC/packet_datatypes.c:202-232 | a variable byte integer is read with value v exactly when v is in range and its canonical encoding stands at the cursor |
| Wire.EncodeVarintLength | Sources/MosquittoC/packet_datatypes.c:258-270 | packet__varint_bytes is the number of bytes of the encoding |
| Wire.Uint16Exact | Sources/MosquittoC/packet_datatypes.c:149-171 | a 16-bit integer is read exactly where its encoding stands |
| Wire.Uint32Exact | Sources/MosquittoC/packet_datatypes.c:174-199 | the same for 32 bits |
| Wire.BigEndian | Sources/MosquittoC/packet_datatypes.c:149-199 | 16-bit and 32-bit encodings are the number in base 256, most significant byte first |
| Wire.VarintGroups | Sources/MosquittoC/packet_datatypes.c:235-255 | a variable byte integer is its number in groups of seven bits, the lowest first, each but the last with its high bit set, and no group more than it takes |
| Wire.BinaryExact | Sources/MosquittoC/packet_datatypes.c:91-146 | length-prefixed data is read exactly where its encoding stands |
| Packets.Packet.RemainingBytes | Sources/MosquittoC/packet_mosq.c:59-69 | the length bytes of the fixed header are the variable byte integer encoding, and 5 bytes mean out of range |
| Packets.Packet.Alloc | Sources/MosquittoC/packet_mosq.c:48-85 | the buffer starts with command and length and has room for exactly the remaining length |
| Packets.Packet.ReadByte | Sources/MosquittoC/packet_datatypes.c:47-56 | one byte, or an error at the end of the packet |
| Packets.Packet.ReadUint16 | Sources/MosquittoC/packet_datatypes.c:149-164 | the value and cursor that the layout determines |
| Packets.Packet.ReadUint32 | Sources/MosquittoC/packet_datatypes.c:174-190 | the loop gives the value that the layout determines |
| Packets.Packet.ReadBytes | Sources/MosquittoC/packet_datatypes.c:69-78 | the bytes at the cursor, or an error |
| Packets.Packet.ReadBinary | Sources/MosquittoC/packet_datatypes.c:91-119 | a NUL-terminated copy, a null pointer for empty data |
| Packets.Packet.ReadString | Sources/MosquittoC/packet_datatypes.c:122-138 | the same, refused unless valid UTF-8 |
| Packets.Packet.ReadVarint | Sources/MosquittoC/packet_datatypes.c:202-232 | the loop gives value, byte count and error that the layout determines |
| Packets.Packet.WriteVarint | Sources/MosquittoC/packet_datatypes.c:235-255 | appends the encoding; a fifth byte is reported as an error |
| Packets.Packet.WriteString | Sources/MosquittoC/packet_datatypes.c:141-146 | appends a 16-bit length and as many bytes of the string |
| Repetition.ReadFromExact | Sources/MosquittoC/property_mosq.c:160-183 | reading until a declared length is used up yields a list exactly when the encodings of good items stand there and cover that length |
| Repetition.CoversBound | Sources/MosquittoC/property_mosq.c:160-183 | such a list is at least as long as declared, and without its last item shorter |
| Properties.PropertyExact | Sources/MosquittoC/property_mosq.c:34-145 | a property is read exactly where the encoding of a well-formed one stands; the cursor ends behind it |
| Properties.TableLayout | Sources/MosquittoC/property_mosq.c:344-407 | every property with an encoding is its identifier byte and its value laid out as table 2-4 of MQTT Version 5.0 gives its type, by identifier number |
| Properties.TableComplete | Sources/MosquittoC/property_mosq.c:139-141 | identifiers are known exactly if they are in that table; reader and writer refuse the others |
| Properties.ReadProperty | Sources/MosquittoC/property_mosq.c:34-145 | the declared length goes down by as many bytes as the cursor moves |
| Properties.GetLength | Sources/MosquittoC/property_mosq.c:260-327 | the number of bytes of the encoding, and 0 for a property that has none |
| Properties.GetLengthAll | Sources/MosquittoC/property_mosq.c:330-341 | the sum over a list |
| Properties.WriteProperty | Sources/MosquittoC/property_mosq.c:344-407 | appends identifier and value; the error and what has been written by then for an unknown identifier or too large an integer |
| Properties.WriteResultExact | Sources/MosquittoC/property_mosq.c:344-407 | writing succeeds exactly with a property that has an encoding, which is what it writes; an unknown identifier is invalid, a number out of range a protocol error |
| Properties.WriteAll | Sources/MosquittoC/property_mosq.c:410-428 | appends the properties in order, behind their length if asked to, up to the first that cannot be written |
| Properties.WriteAllExact | Sources/MosquittoC/property_mosq.c:330-428 | a list is written whole, with the length that was added up, exactly when every property in it has an encoding |
| Properties.ListResultExact | Sources/MosquittoC/property_mosq.c:410-428 | the result for a list: success exactly if it has an encoding, and its length too where that goes in front; a length out of range is a protocol error |
| Properties.ReadAll | Sources/MosquittoC/property_mosq.c:148-190 | list, cursor and error that the buffer determines |
| Properties.CheckAll | Sources/MosquittoC/property_mosq.c:844-895 | the nested loops report the first property at fault |
| Properties.CheckCommandExact | Sources/MosquittoC/property_mosq.c:431-522 | allows exactly the identifiers that the standard allows in each packet, and a Reason String in will properties |
| Properties.CheckAllExact | Sources/MosquittoC/property_mosq.c:844-895 | a list passes exactly when each property is allowed in the packet, has a legal value, and none but user properties repeats |
| Properties.SubscriptionIdsExact | Sources/MosquittoC/property_mosq.c:879-890 | of the lists that the standard accepts in a PUBLISH, exactly those with at most one Subscription Identifier pass; the others fail as duplicates |
| Properties.TwoSubscriptionIds | Sources/MosquittoC/property_mosq.c:879-890 | a list with two of them that the standard accepts and the check refuses |
| Properties.OthersAccepted | Sources/MosquittoC/property_mosq.c:844-895 | in every packet but PUBLISH, all lists that the standard accepts pass |
| Properties.AcceptedExact | Sources/MosquittoC/property_mosq.c:844-895 | in every packet, of the lists that pass the standard accepts exactly those without a Subscription Identifier of 0, a Payload Format Indicator above 1 and a Reason String in a will |
| Properties.FaultExact | Sources/MosquittoC/property_mosq.c:844-895 | a list that fails does so for its first property at fault: a protocol error for its value or place, a duplicate if it comes again further on |
| Properties.ReadsFirst | Sources/MosquittoC/property_mosq.c:897-1045 | the readers of single properties find the value of the first property with the identifier |
| Properties.ReadErrors | Sources/MosquittoC/property_mosq.c:148-190 | reading properties fails with a protocol error, malformed UTF-8, a malformed packet or a duplicate, and with nothing else |
| Properties.ZeroSubscriptionId | Sources/MosquittoC/property_mosq.c:852-874 | a list with a Subscription Identifier of 0 that passes |
| Properties.PropertiesExact | Sources/MosquittoC/property_mosq.c:148-190 | property__read_all succeeds exactly on a declared length followed by an acceptable list that covers it |
| Properties.PropertiesConsumed | Sources/MosquittoC/property_mosq.c:148-190 | what it consumes is prefix plus encoded list; never short of the declared length, beyond it only by the last property |
| Building.PropertiesRoundTrip | Sources/MosquittoC/property_mosq.c:148-190 | an acceptable list comes back from its block unchanged, in order, with the cursor at the end of the block |
| Building.BlockRead | Sources/MosquittoC/property_mosq.c:148-190 | any well-formed list in a block is read back to its end, or refused for exactly the fault that the check finds |
| Building.BlockExact | Sources/MosquittoC/property_mosq.c:148-190 | the blocks that are read, byte by byte: a declared length, an acceptable list that covers it, and anything behind |
| Building.WrittenWhole | Sources/MosquittoC/property_mosq.c:330-428 | a list that fits is counted right and makes a whole block |
| Publishing.SendRealPublish | Sources/MosquittoC/send_publish.c:131-215 | the length added up beforehand is exact: the packet is filled to its last byte; oversize and payload errors in all cases; where the buffer would be overrun |
| Publishing.AddedLengthExact | Sources/MosquittoC/send_publish.c:147-168 | as many bytes are written as were added up exactly when the properties are shorter than 2^28 bytes, otherwise 5 more |
| Publishing.LongPropertiesOverrun | Sources/MosquittoC/send_publish.c:147-168 | a list of user properties for which 5 bytes too many are written |
| Publishing.PacketSizeExact | Sources/MosquittoC/packet_mosq.c:187-199 | a packet that passes the size check keeps to the broker's maximum but for one length, where it exceeds it by exactly 1 |
| Publishing.OneByteTooLong | Sources/MosquittoC/packet_mosq.c:187-199 | an 8-byte packet that passes at a maximum of 7 |
| Publishing.ReadTopic | Sources/MosquittoC/handle_publish.c:61-69 | the topic, or the error that handle__publish returns |
| Publishing.ReadRest | Sources/MosquittoC/handle_publish.c:71-111 | identifier, properties and payload that the packet determines |
| Publishing.PublishExact | Sources/MosquittoC/handle_publish.c:55-111 | the accepted packets laid out byte by byte: a topic, an identifier that is not 0 exactly where QoS calls for one, a property block in version 5, the payload; QoS, retain and duplicate flag from the bits of the command byte |
| Publishing.PublishErrors | Sources/MosquittoC/handle_publish.c:61-111 | what is refused: for its topic exactly if it has no legible one, otherwise for the rest, with the errors that readers have |
| Publishing.PublishRoundTrip | Sources/MosquittoC/handle_publish.c:55-111 | what send__real_publish prints, handle__publish reads back: topic, QoS, flags, identifier, properties, payload, for all three versions |
| Publishing.PublishRead | Sources/MosquittoC/handle_publish.c:55-111 | the same without asking for acceptable properties: read back, or refused for their first fault |
| Publishing.SubscriptionIdsRefused | Sources/MosquittoC/handle_publish.c:93-98 | a PUBLISH with properties that the standard accepts is read back if it has at most one Subscription Identifier and refused otherwise |
| Acks.SendCommandWithMid | Sources/MosquittoC/send_mosq.c:119-165 | the acknowledgement fills its packet exactly |
| Acks.ReadAck | Sources/MosquittoC/handle_pubackcomp.c:63-76 | identifier, reason and error that the packet determines |
| Acks.AckExact | Sources/MosquittoC/handle_pubrec.c:53-67 | the accepted packets laid out byte by byte: a non-zero identifier, alone or with a reason, or with a reason, a declared length, an acceptable property list that covers it and anything behind |
| Acks.AckErrors | Sources/MosquittoC/handle_pubrec.c:53-67 | what is refused fails with one of the errors that readers have |
| Acks.AckBodyShape | Sources/MosquittoC/send_mosq.c:119-165 | identifier first; reason 0 is left out when there are no properties, and in version 3 always |
| Acks.DupBit | Sources/MosquittoC/send_mosq.c:128-131 | the duplicate flag is bit 3, the other bits stay |
| Acks.AckRoundTrip | Sources/MosquittoC/send_mosq.c:119-165 | an acknowledgement is read back with identifier and reason |
| Connecting.SendConnect | Sources/MosquittoC/send_connect.c:34-203 | the lengths added up are exact for every version and every optional field but for what length fields cut off; the packet is filled exactly when nothing is cut; the refusals |
| Connecting.CutNothing | Sources/MosquittoC/send_connect.c:177-193 | nothing is cut exactly when every field fits its length field |
| Connecting.LongIdentifierCut | Sources/MosquittoC/send_connect.c:174-178 | a client identifier of 65536 bytes is counted whole and written as an empty one |
| Connecting.ReceiveMaximumAnnounced | Sources/MosquittoC/send_connect.c:68-76 | the broker is told the Receive Maximum that the client uses |
| Connecting.ConnectRoundTrip | Sources/MosquittoC/send_connect.c:139-193 | a reader that follows section 3.1 of the standard finds every field in its place and nothing left over |
| Subscribing.SendSubscribe | Sources/MosquittoC/send_subscribe.c:36-95 | the length loop and the writing loop agree: the packet is filled exactly |
| Subscribing.SubscribeRoundTrip | Sources/MosquittoC/send_subscribe.c:69-82 | a reader that follows section 3.8 finds identifier, properties and all filters in order |
| Framing.PiecesIrrelevant | Sources/MosquittoC/packet_mosq.c:350-479 | the reader's place does not depend on how a stream is cut and where it blocks |
| Framing.PiecesExact | Sources/MosquittoC/packet_mosq.c:350-388 | that holds for exactly the streams in which no packet has command byte 0 |
| Framing.ZeroCommandLost | Sources/MosquittoC/packet_mosq.c:350-388 | a packet with command byte 0 that is handed on or lost depending on where the reader has to give up |
| Framing.FifthLengthByte | Sources/MosquittoC/packet_mosq.c:389-403 | a remaining length of more than four bytes is refused at its fifth byte, and not before |
| Framing.FeedFrame | Sources/MosquittoC/packet_mosq.c:389-498 | one framed packet is handed on with its command and body, with nothing left over |
| Framing.AnyPiecesSamePackets | Sources/MosquittoC/packet_mosq.c:316-498 | whatever part of a stream of packets has arrived, in whatever pieces, the packets handled are the beginning of those sent, all of them at the end |
| Inbox.Reader.ReadCommand | Sources/MosquittoC/packet_mosq.c:350-388 | one byte, or a place to resume at |
| Inbox.Reader.ReadLength | Sources/MosquittoC/packet_mosq.c:389-442 | the remaining length byte by byte, then the buffer |
| Inbox.Reader.ReadBody | Sources/MosquittoC/packet_mosq.c:443-479 | the body in parts of any size |
| Inbox.Reader.PacketRead | Sources/MosquittoC/packet_mosq.c:316-498 | fields and handled packets are what the bytes so far determine; a call ends with a packet and its handler's result, or with the result that the last read, the length at fault or a missing connection calls for |
| Inbox.Reader.OutcomeExact | Sources/MosquittoC/packet_mosq.c:359-388 | a read that would block is no error; a reset, and the end of file outside a body, is a lost connection; all else is an errno error |
| Inbox.DeliveredInOrder | Sources/MosquittoC/packet_mosq.c:316-498 | after any number of calls the packets handled are the beginning of those sent |
| Outbox.Writer.Queue | Sources/MosquittoC/packet_mosq.c:134-184 | the packet, whose command byte is that of its frame, is linked behind all others; no byte is lost; the connection and the result are those of a direct write if there is one |
| Outbox.Writer.Drain | Sources/MosquittoC/packet_mosq.c:233-262 | of one packet as much is written as the socket takes: all of it, or up to a refused write, with the result that the refusal calls for |
| Outbox.Writer.Conclude | Sources/MosquittoC/packet_mosq.c:265-307 | behind a packet written whole: on_publish for a QoS 0 PUBLISH, the end of the connection for a DISCONNECT and for no other, and the next packet |
| Outbox.Writer.Write | Sources/MosquittoC/packet_mosq.c:202-308 | what the socket has taken is always the packets written whole and part of the next; on_publish has been called for exactly the QoS 0 PUBLISH packets among them; the connection is ended exactly if this call completed a DISCONNECT, which is then its last packet; otherwise it stops only when all is out or the socket refuses, with the result for each |
| Outbox.WriteOutcomeExact | Sources/MosquittoC/packet_mosq.c:241-259 | a write that would block is no error, a reset is a lost connection, all else is an errno error |
| Outbox.WirePrefix | Sources/MosquittoC/packet_mosq.c:202-308 | what the socket has taken is a prefix of the packets queued, in order |
| Outbox.EndToEnd | Sources/MosquittoC/packet_mosq.c:134-310 | with any partial writes on one side and any partial reads on the other, the packets handled are the beginning of those queued, all of them once all bytes are through |
| Topics.LevelsJoin | Sources/MosquittoC/util_topic.c:183-312 | the reference definition of levels loses nothing |
| Topics.SubTopicCheck | Sources/MosquittoC/util_topic.c:108-141 | accepts exactly the filters whose wildcards are whole levels, "#" last, up to 65535 characters |
| Topics.PubTopicCheck | Sources/MosquittoC/util_topic.c:49-73 | accepts exactly the topics without wildcards up to that length |
| Topics.SubTopicCheck2 | Sources/MosquittoC/util_topic.c:143-175 | the counted variant judges wildcards by their neighbours |
| Topics.CountedCheckExact | Sources/MosquittoC/util_topic.c:143-175 | which is filter validity, but for a wildcard right behind a NUL |
| Topics.NulHidesFault | Sources/MosquittoC/util_topic.c:143-175 | an invalid string that the counted variant accepts |
| Topics.PubTopicCheck2 | Sources/MosquittoC/util_topic.c:75-96 | accepts exactly the wildcard-free strings up to 65535 characters |
| Topics.MatchesSub | Sources/MosquittoC/util_topic.c:183-312 | for any two strings the pointer walk has the verdict that `Judge` defines, result code included; for a valid filter and topic it succeeds and its answer is level-by-level matching with "+", "#" with parent level, and the "$" rule |
| Topics.JudgeExact | Sources/MosquittoC/util_topic.c:183-312 | for any two strings: a match is reported exactly for a valid topic that a valid filter matches level by level, or that a valid filter ending with "+" matches if "/#" and anything else follow it; an error only if one of the two is at fault |
| Topics.TrailingMatches | Sources/MosquittoC/util_topic.c:250-259 | an invalid filter that is reported to match |
| Topics.WildcardReported | Sources/MosquittoC/util_topic.c:205-230 | a wildcard in the topic is an error whenever a valid filter matches some topic that is the same up to there |
| Topics.FaultUnnoticed | Sources/MosquittoC/util_topic.c:261-272 | an invalid filter that is not reported |
| Topics.MatchExact | Sources/MosquittoC/util_topic.c:183-312 | level-by-level matching in closed form: without "#" as many levels, each equal or under "+"; with "#" those in front of it and any that follow |
| Topics.FilterFromLevels | Sources/MosquittoC/util_topic.c:108-141 | the character-by-character reading of validity is the level-by-level one |
| Topics.EqualAt | Sources/MosquittoC/util_topic.c:273-310 | consuming equal characters keeps the answer |
| Topics.PlusAt | Sources/MosquittoC/util_topic.c:206-230 | consuming "+" with one topic level keeps the answer |
| Topics.MismatchAt | Sources/MosquittoC/util_topic.c:248-272 | at a difference only the parent-level rule can still match |
| Topics.CountLevels | Sources/MosquittoC/mosquitto.c:570-590 | the first loop counts the levels |
| Topics.SubTopicTokenise | Sources/MosquittoC/mosquitto.c:570-623 | the array holds exactly the levels, empty ones as null pointers |
| Inflight.MessageList.Append | Sources/MosquittoC/include/utlist.h:639-651 | keeps circular prev and terminated next; means append |
| Inflight.MessageList.Delete | Sources/MosquittoC/include/utlist.h:706-723 | keeps the shape; means removal of that element |
| Client.Client.constructor | Sources/MosquittoC/mosquitto.c:139-181 | a fresh client stands for the start state |
| Client.Client.MidGenerate | Sources/MosquittoC/util_mosq.c:132-151 | the 16-bit counter that skips 0 |
| Client.Client.IncrementSendQuota | Sources/MosquittoC/util_mosq.c:213-218 | up to the maximum |
| Client.Client.DecrementSendQuota | Sources/MosquittoC/util_mosq.c:228-233 | not below 0 |
| Client.Client.IncrementReceiveQuota | Sources/MosquittoC/util_mosq.c:206-211 | up to the maximum |
| Client.Client.DecrementReceiveQuota | Sources/MosquittoC/util_mosq.c:221-226 | not below 0 |
| Client.Client.ReleaseToInflightOut | Sources/MosquittoC/messages_mosq.c:188-216 | the walk over the linked list is the walk on the sequence: states, quota, sends and result |
| Client.Client.Remove | Sources/MosquittoC/messages_mosq.c:219-272 | removes the first entry with the identifier if its QoS fits, and nothing otherwise; queue_len follows |
| Client.Client.OutUpdate | Sources/MosquittoC/messages_mosq.c:319-339 | changes the state of that entry only |
| Client.Client.RetryCheck | Sources/MosquittoC/messages_mosq.c:274-310 | the walk over the list is the walk on the sequence |
| Client.Client.ResetInbound | Sources/MosquittoC/messages_mosq.c:143-158 | deleting while walking leaves exactly the QoS 2 entries, each charged |
| Client.Client.ResetOutbound | Sources/MosquittoC/messages_mosq.c:161-184 | phases and quota after the reset |
| Client.Client.MessageReconnectReset | Sources/MosquittoC/messages_mosq.c:138-185 | the reset step of the state machine |
| Client.Client.QueueOut | Sources/MosquittoC/messages_mosq.c:120-136 | append, count, release |
| Client.Client.QueueIn | Sources/MosquittoC/messages_mosq.c:120-136 | append and count; nothing is released |
| Client.Client.DeleteOut | Sources/MosquittoC/handle_pubackcomp.c:94-112 | one entry gone and one notification, or neither |
| Client.Client.HandlePubackcomp | Sources/MosquittoC/handle_pubackcomp.c:42-119 | the PUBACK and PUBCOMP step of the state machine, result code included |
| Client.Client.HandlePubrec | Sources/MosquittoC/handle_pubrec.c:38-111 | the PUBREC step, success and refusal |
| Client.Client.HandlePublish | Sources/MosquittoC/handle_publish.c:35-168 | the inbound PUBLISH step, with the quota test between topic and identifier |
| Client.Client.HandlePubrel | Sources/MosquittoC/handle_pubrel.c:39-129 | the PUBREL step: PUBCOMP first, then delivery or drop |
| Client.Client.HandleConnack | Sources/MosquittoC/handle_connack.c:57-128 | the CONNACK step, and the terms taken from its properties; an illegible one changes nothing |
| Client.ConnackExact | Sources/MosquittoC/handle_connack.c:66-99 | the accepted packets, byte by byte: flags, a reason, in version 5 an acceptable property block, and no identifier for a client that has one |
| Client.TermsExact | Sources/MosquittoC/handle_connack.c:85-103 | by identifier number: client identifier, maximum QoS, maximum packet size and keepalive time are those of the packet, or what they were |
| Client.Client.HandleDisconnect | Sources/MosquittoC/handle_disconnect.c:31-61 | the state is Disconnected and the lists are kept, or the packet is refused and nothing changes |
| Client.DisconnectExact | Sources/MosquittoC/handle_disconnect.c:44-51 | of the DISCONNECT packets that the standard allows, all are read but the empty one |
| Client.DisconnectReads | Sources/MosquittoC/handle_disconnect.c:40-51 | all that is read: in version 5 a reason, with more than two bytes an acceptable property block |
| Client.Client.Init | Sources/MosquittoC/connect.c:78-80 | quotas start at their maximums |
| Client.Client.Connect | Sources/MosquittoC/send_connect.c:68-76 | an application's Receive Maximum becomes maximum and quota, whether or not the packet can be made |
| Client.Client.PublishV5 | Sources/MosquittoC/actions.c:37-158 | a call at fault changes nothing; otherwise the publish step with the next identifier, for every QoS |
| Admission.Admit | Sources/MosquittoC/actions.c:50-103 | the error code of the first check that fails |
| Admission.AdmittedExactly | Sources/MosquittoC/actions.c:50-103 | exactly which calls are admitted |
| Admission.RefusalExact | Sources/MosquittoC/actions.c:50-103 | which error code each cause of refusal has, and which cause goes before which |
| Admission.PrintedLengthExact | Sources/MosquittoC/actions.c:95-99 | the length estimated and the length printed differ by the bytes of the property length less one, and by one with a packet identifier |
| Admission.AdmittedComesThrough | Sources/MosquittoC/send_publish.c:141-190 | an admitted message is printed exactly when its true length is in the protocol's range and within the broker's maximum; with a topic of its own it is read back unchanged |
| Admission.ForeignPropertiesCut | Sources/MosquittoC/actions.c:55-62 | of properties that the client has not made itself, the first alone is read at the other end |
| Admission.AdmittedButOversize | Sources/MosquittoC/actions.c:95-103 | a message that is admitted and then refused for the broker's maximum |
| Admission.AdmittedButTooLong | Sources/MosquittoC/actions.c:89 | one that is admitted and too long for any packet |
| Admission.RefusedThoughItFits | Sources/MosquittoC/actions.c:95-103 | one that is refused though it would fit |
| SendWindow.ReleaseWindow | Sources/MosquittoC/messages_mosq.c:188-216 | every message handed out is charged but one whose send failed; the walk stops only for lack of quota, of messages, or at that failure |
| SendWindow.ResetWindow | Sources/MosquittoC/messages_mosq.c:161-184 | a reset keeps exactly the first messages that the maximum allows, and charges those |
| SendWindow.WindowExact | Sources/MosquittoC/messages_mosq.c:188-216 | released messages form a prefix, as many as the maximum allows are out, and missing quota is accounted for: kept by an event exactly when it is fair |
| SendWindow.FairInPractice | Sources/MosquittoC/handle_connack.c:101-105 | a maximum that is not raised and a PUBREC for a message that has been sent are fair |
| SendWindow.WindowRun | Sources/MosquittoC/handle_pubackcomp.c:59-115 | so from the window to every state of every fair run, over reconnections and failing sends |
| SendWindow.WindowStarts | Sources/MosquittoC/connect.c:78-80 | it holds at the first connection whatever was published before, as long as no send can succeed without one |
| SendWindow.WindowAlways | Sources/MosquittoC/connect.c:78-80 | from the start, over offline publishes and the first connection, to every state of every fair run |
| SendWindow.ResetExact | Sources/MosquittoC/messages_mosq.c:161-184 | a reset keeps the whole quota exactly if every message within the maximum is QoS 1 or has been handed out |
| SendWindow.WindowFilled | Sources/MosquittoC/messages_mosq.c:195-210 | with messages in the list the first is marked as handed out, and an empty quota means that as many are as the maximum allows |
| SendWindow.PubRecExact | Sources/MosquittoC/handle_pubrec.c:82-100 | a PUBREC keeps the window exactly when it does not name a message behind the next one to be sent |
| SendWindow.ConnackExact | Sources/MosquittoC/handle_connack.c:101-117 | a CONNACK keeps it exactly when its maximum is not above what is out while messages wait |
| Inputs.FullWindowReached | Sources/MosquittoC/messages_mosq.c:188-216 | the state in which a maximum of 1 is used up and two messages wait is that of a run from the start |
| Resume.EarlyPubrecBreaksOrder | Sources/MosquittoC/handle_pubrec.c:82-83 | a success PUBREC for an unsent message: an older message is left waiting behind one that counts as out |
| Resume.RaisedMaximumExact | Sources/MosquittoC/handle_connack.c:101-105 | after a CONNACK with any Receive Maximum, the next reset keeps the whole quota exactly if every message within it is QoS 1 or had been handed out |
| Resume.RaisedMaximumLosesQuota | Sources/MosquittoC/handle_connack.c:101-105 | with a QoS 2 message waiting, a raised maximum loses quota at the reset |
| Resume.RetryExact | Sources/MosquittoC/messages_mosq.c:274-310 | of any list, a CONNACK resends exactly the messages under way, in order: PUBREL if PUBREC had come, a duplicate PUBLISH otherwise |
| Resume.ResetInExact | Sources/MosquittoC/messages_mosq.c:143-158 | of any inbound list a reset keeps exactly the QoS 2 messages, in order, and charges each while there is quota |
| Resume.ResendInOrder | Sources/MosquittoC/messages_mosq.c:274-310 | reset and CONNACK resend, in list order, one packet for each message in the window: PUBREL if PUBREC had come, a duplicate PUBLISH otherwise; the others wait |
| FlowControl.CreditLaw | Sources/MosquittoC/util_mosq.c:213-233 | the exact account of quota plus messages out for every event |
| FlowControl.CreditExact | Sources/MosquittoC/util_mosq.c:213-233 | with sends that succeed, quota plus messages out does not grow with an event exactly if what it earns it also retires |
| FlowControl.UnknownAckOverCredits | Sources/MosquittoC/handle_pubackcomp.c:59-76 | with a full window of 1, a PUBACK for an unknown identifier lets a second message out |
| FlowControl.FlowControl | Sources/MosquittoC/handle_connack.c:105-117 | with sends that succeed and a broker that keeps to the protocol, at most the maximum more messages are out than at CONNACK; starting from none, quota plus messages out is the maximum |
| Progress.FlowingStep | Sources/MosquittoC/messages_mosq.c:188-216 | within a connection, while sends succeed, every event keeps that missing quota is backed by packets under way and that something is under way while messages wait |
| Progress.ResumedExact | Sources/MosquittoC/messages_mosq.c:161-184 | after a reset and CONNACK this holds exactly if no message has to wait or the network took a packet of the retry |
| Progress.ConnectionFlows | Sources/MosquittoC/messages_mosq.c:274-310 | then it holds in every later state of the connection, whatever the broker sends and the application does |
| Progress.RefusedRetryStalls | Sources/MosquittoC/messages_mosq.c:282-287 | a run after which a message waits with quota left and nothing under way |
| History.MidOfNext | Sources/MosquittoC/util_mosq.c:132-151 | the k-th identifier is ((k - 1) mod 65535) + 1 |
| History.MidWindow | Sources/MosquittoC/util_mosq.c:132-151 | any 65535 consecutive identifiers are each of 1..65535 once |
| History.DistinctMids | Sources/MosquittoC/actions.c:105-154 | identifiers in the list differ while fewer than 65535 have been drawn since the oldest |
| History.OutStep | Sources/MosquittoC/messages_mosq.c:86-136 | every event keeps lengths, phases and identifiers of the outbound list, and its conservation |
| History.InStep | Sources/MosquittoC/handle_publish.c:136-162 | every event keeps the inbound list, its conservation and the receive quota |
| History.EveryMessageOnce | Sources/MosquittoC/handle_pubackcomp.c:94-112 | over every run, an appended message is in the list, was completed or was refused: exactly one of these, once |
| Reports.ReportsExact | Sources/MosquittoC/handle_pubrec.c:82-94 | an event reports a message as refused exactly if it is a refusing PUBREC of version 5 that names one, as completed exactly if it is a PUBACK or PUBCOMP that names one of its QoS; the report carries the identifier in the packet |
| Reports.EndedHeard | Sources/MosquittoC/handle_pubackcomp.c:94-107 | over every run, on_publish_v5 hears once of each message that has ended, on_publish of all of them exactly if none was refused |
| Reports.RefusedUnheard | Sources/MosquittoC/handle_pubrec.c:85-94 | a run in which a message ends and on_publish hears nothing |
| History.EveryDeliveryOnce | Sources/MosquittoC/handle_pubrel.c:97-125 | over every run, a stored QoS 2 message is held, delivered or dropped: exactly one of these, once |
| History.AlwaysSound | Sources/MosquittoC/handle_publish.c:71-78 | over every run lengths, phases and identifiers are true, and from the first connection on a message is refused for lack of quota only when the maximum number of entries is held |
| History.UnknownMidsReportNothing | Sources/MosquittoC/handle_pubrel.c:103-122 | acknowledgements of unknown identifiers report and deliver nothing |
| Integrity.NothingInvented | Sources/MosquittoC/handle_pubrel.c:103-120 | over every run, each message delivered has the content, and for QoS 2 the identifier, of a PUBLISH that came in; each message sent, resent or waiting has the QoS and content of one that was published |
| Integrity.FaithfulStep | Sources/MosquittoC/messages_mosq.c:120-310 | every event keeps that |
| Integrity.AddressedStep | Sources/MosquittoC/send_mosq.c:68-116 | every event keeps that each packet sent with QoS 1 or 2, and each acknowledgement, has a non-zero identifier and one of the four commands |
| Integrity.AddressedRun | Sources/MosquittoC/send_mosq.c:68-116 | so over every run whose packets have non-zero identifiers |
| Duplicates.DistinctExact | Sources/MosquittoC/handle_publish.c:155-162 | identifiers of held messages stay distinct exactly unless an accepted QoS 2 PUBLISH names one that is held |
| Duplicates.DistinctRun | Sources/MosquittoC/handle_publish.c:155-162 | so over every run without such a PUBLISH |
| Duplicates.PubrelDeliversTheOne | Sources/MosquittoC/handle_pubrel.c:97-125 | with distinct identifiers a PUBREL delivers the one message stored under its identifier, and a second PUBREL nothing |
| Duplicates.RepeatedPublishDeliveredTwice | Sources/MosquittoC/handle_publish.c:155-162 | a resent PUBLISH and two PUBRELs deliver the content twice |
| Completeness.GivenExact | Sources/MosquittoC/handle_publish.c:136-162 | an event gives the application exactly what it owes: the content of a QoS 0 or 1 PUBLISH that comes in while the client is active with receive quota left, or of the first message held under the identifier of a PUBREL if PUBCOMP can be sent |
| Completeness.GivenRun | Sources/MosquittoC/handle_publish.c:136-162 | so over every run: all of that, in order, once each, and nothing else |
| Completeness.HeldExact | Sources/MosquittoC/handle_publish.c:155-162 | the messages held after an event: one more exactly with a QoS 2 PUBLISH that the client takes, that one less exactly with a PUBREL for it |
| Completeness.BalancedStep | Sources/MosquittoC/util_mosq.c:206-226 | with a broker that keeps to the Receive Maximum and to its identifiers, receive quota and messages held make up the maximum, and a message is refused exactly when as many are held |
| Completeness.BalancedRun | Sources/MosquittoC/util_mosq.c:206-226 | so over every run |
| Completeness.ZeroPublish | Sources/MosquittoC/actions.c:105-111 | a QoS 0 publish is handed to the network at once, not as a duplicate, under a freshly drawn identifier; the call returns the result of that send |
| Completeness.QueuedPublish | Sources/MosquittoC/actions.c:112-154 | a QoS 1 or 2 publish makes one message at the end of the list, with its content and a freshly drawn identifier, and leaves the others as they are but for their state |
| Completeness.ZeroRun | Sources/MosquittoC/actions.c:105-111 | over every run the QoS 0 messages handed to the network are those published, in order, once each |
| Results.AckResult | Sources/MosquittoC/handle_pubackcomp.c:50-117 | PUBACK and PUBCOMP succeed exactly on an active client, if legible and if they name no message of another QoS; the errors otherwise, and that a refused one changes at most the quota |
| Results.PubRecResult | Sources/MosquittoC/handle_pubrec.c:45-110 | one that refuses succeeds; otherwise the result is that of sending PUBREL, and only the named message changes, unless it has another QoS |
| Results.PublishResult | Sources/MosquittoC/handle_publish.c:50-168 | when an inbound PUBLISH is refused, with which result, and that it then changes nothing; otherwise the result is that of the acknowledgement |
| Results.PubRelResult | Sources/MosquittoC/handle_pubrel.c:50-127 | the flags that are due, and the result: that of sending PUBCOMP, or a protocol error for a message of another QoS |
| Results.PublishOutResult | Sources/MosquittoC/actions.c:105-154 | a publish call returns the result of its last send, which is the first that fails |
| Results.ConnackResult | Sources/MosquittoC/handle_connack.c:101-127 | accepted with reason 0 only; a refusal for 1 to 5; the quota starts afresh either way |
| Results.ActiveMeansAccepted | Sources/MosquittoC/handle_connack.c:109-117 | over every run, a client that has become active has received a CONNACK with reason 0 or has been set active |
| Results.AcceptedFirst | Sources/MosquittoC/handle_connack.c:109-117 | from the start, a client that is active, and has not been set active, has received such a CONNACK |
| Exchange.AnsweredOnce | Sources/MosquittoC/handle_publish.c:136-162 | each event is answered by the acknowledgement that the standard asks for, once, with its identifier, and by no other |
| Exchange.SentInOrder | Sources/MosquittoC/messages_mosq.c:194-210 | a walk sends the messages right behind those already out, one after the other |
| Exchange.MarchingStep | Sources/MosquittoC/messages_mosq.c:188-216 | every event within a connection keeps that messages are handed out once each, in order of publication |
| Exchange.OutInOrder | Sources/MosquittoC/messages_mosq.c:188-216 | so over any fair run within a connection, whatever the sends return |
| Ordering.OrderedExact | Sources/MosquittoC/messages_mosq.c:188-216 | a fair event keeps that whatever counts as out, and whatever precedes something handed out, has been handed out, exactly if it is no PUBREC for a message never sent |
| Ordering.OrderAlways | Sources/MosquittoC/messages_mosq.c:161-216 | from the start, over reconnections and failing sends, messages are handed out for the first time in the order of publication |
| Ordering.OvertakenByThree | Sources/MosquittoC/handle_pubrec.c:82-83 | a run in which a fair but early PUBREC makes a message go out first behind a later one |
| Session.HandlePacket | Sources/MosquittoC/read_handle.c:35-69 | a received packet changes the client, and returns, as its handler's step says; an unknown type is a protocol error |
| Session.FrameIsEvent | Sources/MosquittoC/read_handle.c:35-69 | which is the event that the packet is, or no change |
| Session.EventPossible | Sources/MosquittoC/read_handle.c:35-69 | every packet, well-formed or not, is an event that the results on runs cover, never with identifier 0 |
| Session.Receive | Sources/MosquittoC/packet_mosq.c:316-498 | a call of packet__read reads from an open connection; it hands at most one packet to the client and then returns what its handler does; the client is always where the packets handed over lead |
| Session.LoopRead | Sources/MosquittoC/loop.c:362-400 | why the loop ends, and with which result: it has handled as many packets as messages are in flight, at least one; or the last of them failed or left an error number behind; or none came after it, for the reason that the last read, or the missing connection, gives. Those before neither failed nor did so, and it always reads |
| Session.BudgetExact | Sources/MosquittoC/loop.c:374-383 | the number of packets that one call may handle is that of the messages in both lists, at least one |
| Session.SameStateHowever | Sources/MosquittoC/packet_mosq.c:316-498 | however the bytes of a sequence of packets arrive, once all are read the client is in the state to which these packets lead one by one |
| Session.HandleAllIsRun | Sources/MosquittoC/read_handle.c:35-69 | handling packets is a run of the events that they are, all of them possible and with identifiers that are not 0 |
| Session.HandleAllSound | Sources/MosquittoC/read_handle.c:35-69 | whatever packets are handled, lists, quota and accounts stay true |
| Session.FollowingSound | Sources/MosquittoC/packet_mosq.c:316-498 | so for a client that reads from a socket, whatever bytes a peer sends in whatever pieces: lists, quota and accounts are true |
| Session.FollowingWindow | Sources/MosquittoC/packet_mosq.c:316-498 | the send window holds if the packets are fair |
| Session.FollowingInOrder | Sources/MosquittoC/packet_mosq.c:316-498 | within a connection, messages are handed out in order if the packets are fair |
| Session.FollowingFlows | Sources/MosquittoC/packet_mosq.c:316-498 | within a connection, something stays under way while sends succeed |
| Received.ConnackFrame | Sources/MosquittoC/handle_connack.c:57-128 | on the bytes received, for a client not connected yet: after a CONNACK it is active, and the result success, exactly if the packet is legible and its second byte 0; any other leaves connection, lists and wire alone, and is a refusal exactly for 1 to 5 |
| Received.ConnackTakes | Sources/MosquittoC/handle_connack.c:78-105 | what is taken from a legible CONNACK, by identifier number: the first Receive Maximum as the send window, which starts afresh; client identifier, maximum QoS, maximum packet size and keepalive time |
| Received.DisconnectFrame | Sources/MosquittoC/handle_disconnect.c:31-61 | a DISCONNECT ends the connection exactly if it is legible, and changes nothing else |
| Received.OtherFrames | Sources/MosquittoC/read_handle.c:35-69 | packets of the remaining types change nothing; those that have no handler are protocol errors |
| Received.AckFrame | Sources/MosquittoC/read_handle.c:35-69 | a PUBACK, PUBREC, PUBREL or PUBCOMP laid out as the standard says takes the step of its type with the identifier and the reason in it; any other fails and leaves lists, notes and wire alone |
| Received.PublishFrame | Sources/MosquittoC/handle_publish.c:35-168 | a PUBLISH laid out as the standard says takes its step with what is in it; any other fails and changes nothing |
| Received.ActiveHeard | Sources/MosquittoC/handle_connack.c:109-117 | whatever packets a client handles, if it has become active one of them was a legible CONNACK whose second byte is 0 |
| Session.AdmittedAdmissible | Sources/MosquittoC/actions.c:50-103 | every publish call that is admitted makes a message that can be heard |
| Session.SendMeant | Sources/MosquittoC/handle_publish.c:55-111 | any such message, and any acknowledgement, is, printed, read and dispatched at the other end, the event that was meant; one that relies on a topic alias is refused there |
| Session.QosZeroExact | Sources/MosquittoC/packet_mosq.c:265-281 | the packets that on_publish is called for when they have been written are the QoS 0 messages |
| Session.WhatIsSentIsHeard | Sources/MosquittoC/packet_mosq.c:134-310 | over any run of admitted publishes and any packets received: the sends of a connection that the network took, queued in their order among other packets, written in any parts and read in any pieces, are heard in order as what was meant, all of them at the end |

## Left out

- Sockets, name resolution, TLS, SOCKS, threads, mutexes and the wake-up socket pair: a socket is a script of results.
- Re-entrant callbacks: a callback that calls the library is not modelled; a callback is a note in the trace.
- Allocation failure, freeing and copying of memory.
- Client.Client.HandleConnack: does not model the connect callback, nor the version 3 CONNACK answered to a version 5 client beyond the error code.
- Client.Client.PublishV5: a negative payload length is not representable.
- Publishing.SendRealPublish: a buffer that would be overrun is left unfilled, as the write functions assert that it does not happen; stored properties and expiry interval are broker only.
- Connecting.SendConnect: requires a total below 2^31, since the length is added up in an int.
- Subscribing.SendSubscribe: requires a total below 2^32, since the length is added up in 32 bits.
- Outbox.Writer.Write: the callback for the disconnection, packet__cleanup_all and the ping timer are not modelled; the version 5 publish callback is called with the other one for QoS 0.
- Inbox.Reader.PacketRead: a received DISCONNECT that drops a half-written packet is not modelled.
- Session.HandlePacket: the results of the PINGREQ, PINGRESP, SUBACK, UNSUBACK and AUTH handlers are a parameter, as these touch neither state nor lists nor quotas.
- Session.LoopRead: whether the connection is open and whether a handler has left an error number behind are parameters; what mosquitto__loop_rc_handle does with the result is not modelled.
- Client.Client.HandleDisconnect: closing the socket, and the packet that is then dropped from the output queue, are not modelled.
- Session.WhatIsSentIsHeard: a send that fits in no packet is taken by no network; that of two packets queued the later one belongs to the later send is a premise, as client and writer are separate objects here.
- Properties.WriteProperty: requires identifiers and integers below 2^31, which the packet functions take as an int.
- The links of a property list: a list of properties is a sequence, so the loops over `next` run over indices; property__add and mosquitto_property_copy_all would add nothing.
- UNSUBSCRIBE, DISCONNECT, PING and AUTH builders: repetitions of the builders above.
- Broker and bridge branches, will and option setters, reconnect delays, keepalive timing, logging and error strings.
- The Swift layer and the example application.
