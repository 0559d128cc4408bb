/**
 * The file receiver's wire formats (src/main/java/server/ServerHandler.java):
 * the chunk packet parsed by the receive loop and the 13-byte ACK it sends back.
 * All integers are big-endian, as DataInputStream and DataOutputStream use them.
 */
module FilePacketCodec {
  import opened Wrappers
  import opened ByteOrder

  /** fileId (8) + totalChunks (4) + chunkIndex (4) + nameLen (2). */
  const FILE_HEADER_SIZE: nat := 18

  /** fileId (8) + chunkIndex (4) + status (1). */
  const ACK_SIZE: nat := 13

  const STATUS_OK: uint8 := 0

  /** One chunk packet: header fields, the file name bytes and the chunk payload. */
  datatype FilePacket = FilePacket(fileId: int64, totalChunks: int32, chunkIndex: int32, name: Bytes, data: Bytes)

  /** The exceptions the parse can raise. */
  datatype DecodeError =
    | Truncated           // EOFException: a header field or the name runs past the packet
    | NegativeNameLength  // NegativeArraySizeException: nameLen read as a negative short

  /** The signed 16-bit name length at offset 16. */
  function NameLength(p: Bytes): int16
    requires |p| >= FILE_HEADER_SIZE
  {
    ReadInt16(p[16..18])
  }

  /** The parse of lines 51-60: readLong, readInt, readInt, readShort, readFully, readAllBytes. */
  function Decode(p: Bytes): (r: Result<FilePacket, DecodeError>)
    ensures |p| < FILE_HEADER_SIZE ==> r == Err(Truncated)
    ensures |p| >= FILE_HEADER_SIZE ==> (r == Err(NegativeNameLength) <==> NameLength(p) < 0)
    ensures |p| >= FILE_HEADER_SIZE ==> (r == Err(Truncated) <==> NameLength(p) > |p| - FILE_HEADER_SIZE)
    ensures r.Ok? ==> |r.value.name| == NameLength(p)
    ensures r.Ok? ==> r.value.name + r.value.data == p[FILE_HEADER_SIZE..]
  {
    if |p| < FILE_HEADER_SIZE then Err(Truncated)
    else
      var nameLen := NameLength(p);
      if nameLen < 0 then Err(NegativeNameLength)
      else if FILE_HEADER_SIZE + nameLen > |p| then Err(Truncated)
      else
        var nameEnd := FILE_HEADER_SIZE + nameLen;
        assert p[FILE_HEADER_SIZE..] == p[FILE_HEADER_SIZE..nameEnd] + p[nameEnd..];
        Ok(FilePacket(ReadInt64(p[0..8]), ReadInt32(p[8..12]), ReadInt32(p[12..16]),
                      p[FILE_HEADER_SIZE..nameEnd], p[nameEnd..]))
  }

  /** The sender's side of the format (writeLong, writeInt, writeInt, writeShort, name, data). */
  function Encode(pkt: FilePacket): (p: Bytes)
    requires |pkt.name| < 0x8000
    ensures |p| == FILE_HEADER_SIZE + |pkt.name| + |pkt.data|
  {
    Int64Bytes(pkt.fileId) + Int32Bytes(pkt.totalChunks) + Int32Bytes(pkt.chunkIndex)
      + Int16Bytes(|pkt.name|) + pkt.name + pkt.data
  }

  /** Every packet whose name fits a signed short decodes back to itself. */
  lemma DecodeEncode(pkt: FilePacket)
    requires |pkt.name| < 0x8000
    ensures Decode(Encode(pkt)) == Ok(pkt)
  {
    var p := Encode(pkt);
    assert p[0..8] == Int64Bytes(pkt.fileId);
    assert p[8..12] == Int32Bytes(pkt.totalChunks);
    assert p[12..16] == Int32Bytes(pkt.chunkIndex);
    assert p[16..18] == Int16Bytes(|pkt.name|);
    var nameEnd := FILE_HEADER_SIZE + |pkt.name|;
    assert p[FILE_HEADER_SIZE..nameEnd] == pkt.name;
    assert p[nameEnd..] == pkt.data;
  }

  /** Re-encoding the fields of a decoded packet reproduces the packet byte for byte. */
  lemma EncodeDecode(p: Bytes)
    requires Decode(p).Ok?
    ensures |Decode(p).value.name| < 0x8000 && Encode(Decode(p).value) == p
  {
    var pkt := Decode(p).value;
    ReadersInvertible(p[0..8]);
    ReadersInvertible(p[8..12]);
    ReadersInvertible(p[12..16]);
    ReadersInvertible(p[16..18]);
    assert p == p[0..8] + p[8..12] + p[12..16] + p[16..18] + p[FILE_HEADER_SIZE..];
  }

  /** One ACK datagram: the chunk it acknowledges and a status byte. */
  datatype Ack = Ack(fileId: int64, chunkIndex: int32, status: uint8)

  /** sendAck's payload (lines 84-90): writeLong(fileId), writeInt(chunkIndex), writeByte(0). */
  function EncodeAck(fileId: int64, chunkIndex: int32): (a: Bytes)
    ensures |a| == ACK_SIZE
  {
    Int64Bytes(fileId) + Int32Bytes(chunkIndex) + [STATUS_OK]
  }

  /** Reads an ACK datagram; the inverse of EncodeAck, used to state what an ACK carries. */
  function DecodeAck(a: Bytes): Option<Ack>
  {
    if |a| != ACK_SIZE then None
    else Some(Ack(ReadInt64(a[0..8]), ReadInt32(a[8..12]), a[12]))
  }

  /** An ACK carries exactly the file id and the chunk index it was built from, with status 0. */
  lemma AckRoundTrip(fileId: int64, chunkIndex: int32)
    ensures DecodeAck(EncodeAck(fileId, chunkIndex)) == Some(Ack(fileId, chunkIndex, STATUS_OK))
  {
    var a := EncodeAck(fileId, chunkIndex);
    assert a[0..8] == Int64Bytes(fileId);
    assert a[8..12] == Int32Bytes(chunkIndex);
  }

  /** Conversely, the only 13 bytes that read as an OK ACK for (fileId, chunkIndex) are EncodeAck's. */
  lemma AckUnique(a: Bytes, fileId: int64, chunkIndex: int32)
    requires DecodeAck(a) == Some(Ack(fileId, chunkIndex, STATUS_OK))
    ensures a == EncodeAck(fileId, chunkIndex)
  {
    ReadersInvertible(a[0..8]);
    ReadersInvertible(a[8..12]);
    assert a == a[0..8] + a[8..12] + [a[12]];
  }
}
