/** The frame protocol's size constants (src/main/java/protocol/Protocol.java). */
module Protocol {

  /** Size of the client's receive buffer: a longer datagram is cut to this size. */
  const PACKET_SIZE: nat := 1400

  /** frameId (4 bytes) + totalParts (2 bytes) + partNumber (2 bytes). */
  const HEADER_SIZE: nat := 8

  const PAYLOAD_SIZE: nat := PACKET_SIZE - HEADER_SIZE

  /** A full-size packet has room for a header and a non-empty payload of 1392 bytes. */
  lemma PayloadRoom()
    ensures PAYLOAD_SIZE == 1392
    ensures 0 < PAYLOAD_SIZE && HEADER_SIZE + PAYLOAD_SIZE == PACKET_SIZE
  {
  }
}
