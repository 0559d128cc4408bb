/** What a socket's receive call leaves in a fixed-size buffer. */
module Datagrams {
  import opened ByteOrder

  /**
   * A datagram longer than the receive buffer is cut to the buffer's size;
   * the excess is silently discarded (DatagramSocket.receive, DatagramChannel.receive).
   */
  function ReceiveInto(d: Bytes, capacity: nat): (r: Bytes)
    ensures |r| <= capacity && |r| <= |d| && r == d[..|r|]
    ensures |d| <= capacity ==> r == d
    ensures |d| >= capacity ==> |r| == capacity
  {
    if |d| <= capacity then d else d[..capacity]
  }
}
