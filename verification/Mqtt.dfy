/**
 * Vocabulary shared by the whole model: machine integers, the result codes of
 * the client library, protocol versions, control packet codes, and the result
 * of reading one item from a received packet.
 */
module Mqtt {

  type byte = b: int | 0 <= b < 0x100
  type uint16 = w: int | 0 <= w < 0x1_0000
  type uint32 = w: int | 0 <= w < 0x1_0000_0000

  // The largest variable byte integer, and so the largest remaining length
  // (section 1.5.5 of MQTT Version 5.0).
  const MAX_VARINT: nat := 0x0FFF_FFFF

  // Result codes (enum mosq_err_t).
  const SUCCESS := 0
  const ERR_PROTOCOL := 2
  const ERR_INVAL := 3
  const ERR_NO_CONN := 4
  const ERR_CONN_REFUSED := 5
  const ERR_NOT_FOUND := 6
  const ERR_CONN_LOST := 7
  const ERR_PAYLOAD_SIZE := 9
  const ERR_NOT_SUPPORTED := 10
  const ERR_ERRNO := 14
  const ERR_MALFORMED_UTF8 := 18
  const ERR_MALFORMED_PACKET := 21
  const ERR_DUPLICATE_PROPERTY := 22
  const ERR_QOS_NOT_SUPPORTED := 24
  const ERR_OVERSIZE_PACKET := 25

  datatype Protocol = V31 | V311 | V5

  // Control packet codes, already shifted into the high nibble.
  const CMD_CONNECT: byte := 0x10
  const CMD_CONNACK: byte := 0x20
  const CMD_PUBLISH: byte := 0x30
  const CMD_PUBACK: byte := 0x40
  const CMD_PUBREC: byte := 0x50
  const CMD_PUBREL: byte := 0x60
  const CMD_PUBCOMP: byte := 0x70
  const CMD_SUBSCRIBE: byte := 0x80
  const CMD_SUBACK: byte := 0x90
  const CMD_UNSUBSCRIBE: byte := 0xA0
  const CMD_UNSUBACK: byte := 0xB0
  const CMD_DISCONNECT: byte := 0xE0
  const CMD_AUTH: byte := 0xF0
  // Not a packet: tells will properties apart from CONNECT properties.
  const CMD_WILL := 0x100

  datatype Option<+T> = None | Some(value: T)

  /** What reading one item at a cursor yields: the item and the cursor after
      it, or the error code that the reader returns. */
  datatype Parsed<+T> = Parsed(value: T, next: nat) | Failed(rc: ErrorCode)

  type ErrorCode = rc: int | rc != SUCCESS witness ERR_PROTOCOL
}
