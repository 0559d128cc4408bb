/**
 * The frame receiver's wire format (src/main/java/client/ClientHandler.java:85-98):
 * an 8-byte big-endian header, frameId (4), totalParts (2) and partNumber (2),
 * followed by the part's payload, all read from a PACKET_SIZE receive buffer.
 */
module FrameCodec {
  import opened Wrappers
  import opened ByteOrder
  import opened Datagrams
  import opened Protocol

  datatype FrameHeader = FrameHeader(frameId: int32, totalParts: uint16, partNumber: uint16)

  datatype FramePacket = FramePacket(header: FrameHeader, payload: Bytes)

  /** ByteBuffer.getShort() & 0xFFFF: the signed short read, then masked to its low 16 bits. */
  function GetUnsignedShort(s: Bytes): (v: uint16)
    requires |s| == 2
    ensures v == ReadUInt16(s)
    ensures 0 <= v <= 0xFFFF
  {
    JavaWidths();
    ReadInt16(s) % 0x1_0000
  }

  /**
   * Lines 88-98: fewer than HEADER_SIZE bytes is no packet (the loop skips
   * it); otherwise the three header fields and every remaining byte as payload.
   */
  function DecodeFrame(p: Bytes): (r: Option<FramePacket>)
    ensures r.None? <==> |p| < HEADER_SIZE
    ensures r.Some? ==> r.value.payload == p[HEADER_SIZE..]
    ensures r.Some? ==> |r.value.payload| == |p| - HEADER_SIZE
  {
    if |p| < HEADER_SIZE then None
    else Some(FramePacket(
      FrameHeader(ReadInt32(p[0..4]), GetUnsignedShort(p[4..6]), GetUnsignedShort(p[6..8])),
      p[HEADER_SIZE..]))
  }

  /** The sender's side of the format (putInt, putShort, putShort, payload). */
  function EncodeFrame(pkt: FramePacket): (p: Bytes)
    ensures |p| == HEADER_SIZE + |pkt.payload|
    ensures p[HEADER_SIZE..] == pkt.payload
  {
    Int32Bytes(pkt.header.frameId) + UInt16Bytes(pkt.header.totalParts)
      + UInt16Bytes(pkt.header.partNumber) + pkt.payload
  }

  /** Every frame packet decodes back to itself: both 16-bit fields survive the full range 0..65535. */
  lemma DecodeEncodeFrame(pkt: FramePacket)
    ensures DecodeFrame(EncodeFrame(pkt)) == Some(pkt)
  {
    var p := EncodeFrame(pkt);
    assert p[0..4] == Int32Bytes(pkt.header.frameId);
    assert p[4..6] == UInt16Bytes(pkt.header.totalParts);
    assert p[6..8] == UInt16Bytes(pkt.header.partNumber);
  }

  /** Re-encoding a decoded packet gives back the received bytes. */
  lemma EncodeDecodeFrame(p: Bytes)
    requires DecodeFrame(p).Some?
    ensures EncodeFrame(DecodeFrame(p).value) == p
  {
    ReadersInvertible(p[0..4]);
    ReadersInvertible(p[4..6]);
    ReadersInvertible(p[6..8]);
    assert p == p[0..4] + p[4..6] + p[6..8] + p[HEADER_SIZE..];
  }

  /**
   * What the receive loop decodes: the datagram as cut to PACKET_SIZE. A
   * packet that holds a header carries at most PAYLOAD_SIZE payload bytes.
   */
  function ReceiveFrame(d: Bytes): (r: Option<FramePacket>)
    ensures r.None? <==> |ReceiveInto(d, PACKET_SIZE)| < HEADER_SIZE
    ensures r.Some? ==> |r.value.payload| <= PAYLOAD_SIZE
    ensures r.Some? ==> r.value.payload == d[HEADER_SIZE..|ReceiveInto(d, PACKET_SIZE)|]
  {
    DecodeFrame(ReceiveInto(d, PACKET_SIZE))
  }
}
