/**
 * The wire form of a message (src/model/message.ts): the recipient address
 * and an opaque, already-encrypted payload that the relay never inspects.
 */
module MessageModel {
  /** The encrypted payload, as the bytes it serialises to. */
  type Payload = seq<bv8>

  datatype Message = Message(to: string, message: Payload)
}
