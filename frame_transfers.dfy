/**
 * Whole frames through the frame receiver's loop: the parts of one frame,
 * sent as the sender cuts them under one totalParts, arriving in any order
 * and with repeats. However they arrive, the frame is displayed exactly once
 * the last missing part arrives, with the parts in index order, and its
 * buffer is removed.
 */
module FrameTransfers {
  import opened Wrappers
  import opened ByteOrder
  import opened Datagrams
  import opened Chunks
  import opened Protocol
  import opened FrameCodec
  import opened FrameReassembly
  import opened FrameReceiver
  import opened Maps

  /** Every part fits in one packet after the 8-byte header. */
  predicate Sendable(chunks: seq<Bytes>)
  {
    forall i :: 0 <= i < |chunks| ==> |chunks[i]| <= PAYLOAD_SIZE
  }

  /** Datagram d is received as part k of frame id out of n, with part k's bytes. */
  predicate Carries(d: Bytes, id: int32, n: uint16, chunks: seq<Bytes>, k: uint16)
    requires |chunks| == n && k < n
  {
    ReceiveFrame(d) == Some(FramePacket(FrameHeader(id, n, k), chunks[k]))
  }

  /** The datagram carrying part k of frame id: it is not cut by the receive buffer. */
  function PartDatagram(id: int32, n: uint16, chunks: seq<Bytes>, k: uint16): (d: Bytes)
    requires |chunks| == n && Sendable(chunks) && k < n
    ensures |d| <= PACKET_SIZE
    ensures Carries(d, id, n, chunks, k)
  {
    var pkt := FramePacket(FrameHeader(id, n, k), chunks[k]);
    DecodeEncodeFrame(pkt);
    EncodeFrame(pkt)
  }

  /** The buffer of the frame once the parts with the indices in `arrived` are stored. */
  function Buffer(n: uint16, chunks: seq<Bytes>, arrived: seq<int>): (f: FrameState)
    requires |chunks| == n && Sendable(chunks)
    ensures BufferInv(f) && f.totalParts == n
    ensures f.receivedParts == n <==> Covers(n, arrived)
  {
    var parts := Slots(n, chunks, arrived);
    CountPresentFull(parts);
    FrameState(n, parts, CountPresent(parts))
  }

  /** A new buffer is the buffer with nothing arrived. */
  lemma NewIsBuffer(n: uint16, chunks: seq<Bytes>)
    requires |chunks| == n && Sendable(chunks)
    ensures NewFrame(n) == Buffer(n, chunks, [])
  {
    assert NewFrame(n).parts == Slots(n, chunks, []);
  }

  /** Storing part k, whether for the first time or again, adds k to the arrived indices. */
  lemma StoreBuffer(n: uint16, chunks: seq<Bytes>, arrived: seq<int>, k: uint16)
    requires |chunks| == n && Sendable(chunks) && k < n
    ensures StorePart(Buffer(n, chunks, arrived), k, chunks[k]) == Some(Buffer(n, chunks, arrived + [k]))
  {
    var f := Buffer(n, chunks, arrived);
    var g := Buffer(n, chunks, arrived + [k]);
    assert forall i :: i in arrived + [k] <==> i in arrived || i == k;
    if k in arrived {
      assert f.parts == g.parts;
    } else {
      assert f.parts[k := Some(chunks[k])] == g.parts;
    }
  }

  /**
   * One datagram of the frame: with the parts `arrived` already in the
   * buffer (no buffer when none has), part k is stored; if every index has
   * now arrived the frame is displayed and its buffer removed, otherwise the
   * frame stays pending with k in its buffer.
   */
  lemma PartStep(frames: map<int32, FrameState>, id: int32, n: uint16, chunks: seq<Bytes>,
                 arrived: seq<int>, k: uint16, d: Bytes)
    requires FramesInv(frames) && |chunks| == n && Sendable(chunks) && k < n
    requires Carries(d, id, n, chunks, k)
    requires arrived == [] ==> id !in frames
    requires arrived != [] ==> id in frames && frames[id] == Buffer(n, chunks, arrived)
    ensures var r := ClientStep(frames, d);
            var now := arrived + [k];
            && (Covers(n, now) ==> r == ClientResult(frames - {id}, Displayed(id, Concat(chunks))))
            && (!Covers(n, now) ==> r == ClientResult(frames[id := Buffer(n, chunks, now)], Pending))
  {
    var pkt := FramePacket(FrameHeader(id, n, k), chunks[k]);
    if arrived == [] {
      NewIsBuffer(n, chunks);
    }
    assert BufferOf(frames, pkt.header) == Buffer(n, chunks, arrived);
    StoreBuffer(n, chunks, arrived, k);
    DeliverCases(frames, pkt);
    var now := arrived + [k];
    CountPresentFull(Buffer(n, chunks, now).parts);
    if Covers(n, now) {
      FullSlots(n, chunks, now);
    }
  }

  /** PartStep as one more step of a loop that has not ended. */
  lemma PartNext(r: ClientRun, id: int32, n: uint16, chunks: seq<Bytes>, arrived: seq<int>, k: uint16, d: Bytes)
    requires FramesInv(r.frames) && !Ended(r.outcomes) && |chunks| == n && Sendable(chunks) && k < n
    requires Carries(d, id, n, chunks, k)
    requires arrived == [] ==> id !in r.frames
    requires arrived != [] ==> id in r.frames && r.frames[id] == Buffer(n, chunks, arrived)
    ensures var next := Next(r, d);
            var now := arrived + [k];
            && (Covers(n, now) ==>
                  next == ClientRun(r.frames - {id}, r.outcomes + [Displayed(id, Concat(chunks))]))
            && (!Covers(n, now) ==>
                  next == ClientRun(r.frames[id := Buffer(n, chunks, now)], r.outcomes + [Pending]))
  {
    PartStep(r.frames, id, n, chunks, arrived, k, d);
  }

  /**
   * The loop after the datagrams of parts `arrived`, none of which completed
   * the frame: each left it pending, and the table is the one before the
   * frame with the frame's buffer holding exactly the parts arrived.
   */
  predicate Receiving(frames: map<int32, FrameState>, id: int32, n: uint16, chunks: seq<Bytes>,
                      arrived: seq<int>, r: ClientRun)
    requires |chunks| == n && Sendable(chunks)
  {
    && |r.outcomes| == |arrived|
    && (forall m :: 0 <= m < |arrived| ==> r.outcomes[m] == Pending)
    && r.frames == if arrived == [] then frames else frames[id := Buffer(n, chunks, arrived)]
  }

  /** One more Pending after |arrived| of them gives |arrived| + 1 of them. */
  lemma PendingAppend(outcomes: seq<FrameOutcome>, arrived: seq<int>, k: int)
    requires |outcomes| == |arrived|
    requires forall m :: 0 <= m < |arrived| ==> outcomes[m] == Pending
    ensures var now, more := arrived + [k], outcomes + [Pending];
            |more| == |now| && forall m :: 0 <= m < |now| ==> more[m] == Pending
  {
  }

  /** One more datagram before every index has arrived keeps the loop Receiving. */
  lemma PrefixNext(frames: map<int32, FrameState>, id: int32, n: uint16, chunks: seq<Bytes>,
                   arrived: seq<int>, k: uint16, r: ClientRun, d: Bytes)
    requires FramesInv(frames) && id !in frames && |chunks| == n && Sendable(chunks) && k < n
    requires Carries(d, id, n, chunks, k)
    requires FramesInv(r.frames) && Receiving(frames, id, n, chunks, arrived, r)
    requires !Covers(n, arrived + [k])
    ensures Receiving(frames, id, n, chunks, arrived + [k], Next(r, d))
  {
    assert !Ended(r.outcomes) by {
      assert arrived != [] ==> r.outcomes[|arrived| - 1] == Pending;
    }
    PartNext(r, id, n, chunks, arrived, k, d);
    PendingAppend(r.outcomes, arrived, k);
    if arrived != [] {
      MapUpdateTwice(frames, id, Buffer(n, chunks, arrived), Buffer(n, chunks, arrived + [k]));
    }
  }

  /**
   * Before the step at which every index has arrived, each datagram leaves
   * the frame pending and its buffer holds exactly the parts seen.
   */
  lemma {:induction false} TransferPrefix(frames: map<int32, FrameState>, id: int32, n: uint16,
                                          chunks: seq<Bytes>, order: seq<uint16>, ds: seq<Bytes>, j: nat)
    requires FramesInv(frames) && id !in frames && |chunks| == n && Sendable(chunks)
    requires |ds| == |order|
    requires forall m :: 0 <= m < |order| ==> order[m] < n && Carries(ds[m], id, n, chunks, order[m])
    requires j <= |order| && !Covers(n, order[..j])
    ensures Receiving(frames, id, n, chunks, order[..j], Run(frames, ds[..j]))
  {
    if j == 0 {
      assert ds[..0] == [] && order[..0] == [];
    } else {
      var before := order[..j - 1];
      TakeOneMore(order, j - 1);
      CoversShorter(n, order, j);
      TransferPrefix(frames, id, n, chunks, order, ds, j - 1);
      RunStep(frames, ds, j - 1);
      PrefixNext(frames, id, n, chunks, before, order[j - 1], Run(frames, ds[..j - 1]), ds[j - 1]);
    }
  }

  /**
   * The loop after the datagrams of parts `arrived`, the last of which
   * completed the frame: every earlier one left it pending, the last
   * displayed the whole frame, and the table is as it was before the frame.
   */
  predicate Completed(frames: map<int32, FrameState>, id: int32, chunks: seq<Bytes>, arrived: seq<int>, r: ClientRun)
  {
    && |r.outcomes| == |arrived| > 0
    && (forall m :: 0 <= m < |arrived| - 1 ==> r.outcomes[m] == Pending)
    && r.outcomes[|arrived| - 1] == Displayed(id, Concat(chunks))
    && r.frames == frames
  }

  /** The datagram that brings the last missing index completes the frame. */
  lemma FinalNext(frames: map<int32, FrameState>, id: int32, n: uint16, chunks: seq<Bytes>,
                  arrived: seq<int>, k: uint16, r: ClientRun, d: Bytes)
    requires FramesInv(frames) && id !in frames && |chunks| == n && Sendable(chunks) && k < n
    requires Carries(d, id, n, chunks, k)
    requires FramesInv(r.frames) && Receiving(frames, id, n, chunks, arrived, r)
    requires Covers(n, arrived + [k])
    ensures Completed(frames, id, chunks, arrived + [k], Next(r, d))
  {
    assert !Ended(r.outcomes) by {
      assert arrived != [] ==> r.outcomes[|arrived| - 1] == Pending;
    }
    PartNext(r, id, n, chunks, arrived, k, d);
    if arrived != [] {
      MapRemoveUpdated(frames, id, Buffer(n, chunks, arrived));
    }
    MapRemoveAbsent(frames, id);
  }

  /** Parts that all arrive, each in a datagram received whole, all fit one packet. */
  lemma ArrivedSendable(id: int32, n: uint16, chunks: seq<Bytes>, order: seq<uint16>, ds: seq<Bytes>)
    requires |chunks| == n && |ds| == |order| && Covers(n, order)
    requires forall m :: 0 <= m < |order| ==> order[m] < n && Carries(ds[m], id, n, chunks, order[m])
    ensures Sendable(chunks)
  {
    forall i | 0 <= i < |chunks| ensures |chunks[i]| <= PAYLOAD_SIZE {
      assert i in order;
      var m :| 0 <= m < |order| && order[m] == i;
      assert Carries(ds[m], id, n, chunks, order[m]);
    }
  }

  /**
   * A whole frame: its parts arrive in the order `order`, any order with any
   * repeats, each in a datagram received as that part under the same
   * totalParts n, and step p is the first after which every index has
   * arrived. Every step before p leaves the frame pending; step p displays
   * the parts in index order and removes the buffer, leaving the table as it
   * was before the frame.
   */
  lemma Transfer(frames: map<int32, FrameState>, id: int32, n: uint16,
                 chunks: seq<Bytes>, order: seq<uint16>, ds: seq<Bytes>, p: nat)
    requires FramesInv(frames) && id !in frames && |chunks| == n
    requires |ds| == |order|
    requires forall m :: 0 <= m < |order| ==> order[m] < n && Carries(ds[m], id, n, chunks, order[m])
    requires p < |order| && !Covers(n, order[..p]) && Covers(n, order[..p + 1])
    ensures Completed(frames, id, chunks, order[..p + 1], Run(frames, ds[..p + 1]))
    ensures Run(frames, ds[..p + 1]).outcomes <= Run(frames, ds).outcomes
  {
    assert Covers(n, order) by {
      forall i | 0 <= i < n ensures i in order {
        assert i in order[..p + 1];
      }
    }
    ArrivedSendable(id, n, chunks, order, ds);
    TransferPrefix(frames, id, n, chunks, order, ds, p);
    TakeOneMore(order, p);
    RunStep(frames, ds, p);
    FinalNext(frames, id, n, chunks, order[..p], order[p], Run(frames, ds[..p]), ds[p]);
    RunPrefix(frames, ds, p + 1);
  }

  /**
   * The frame seen from the whole run: however the parts of a non-empty frame
   * arrive, as long as every index does and all agree on totalParts, some
   * step displays the parts in index order, and every step before it leaves
   * the frame pending.
   */
  lemma DisplayedOnce(frames: map<int32, FrameState>, id: int32, n: uint16,
                      chunks: seq<Bytes>, order: seq<uint16>, ds: seq<Bytes>) returns (p: nat)
    requires FramesInv(frames) && id !in frames && |chunks| == n && 0 < n
    requires |ds| == |order|
    requires forall m :: 0 <= m < |order| ==> order[m] < n && Carries(ds[m], id, n, chunks, order[m])
    requires Covers(n, order)
    ensures p < |order| && p < |Run(frames, ds).outcomes|
    ensures Run(frames, ds).outcomes[p] == Displayed(id, Concat(chunks))
    ensures forall m :: 0 <= m < p ==> Run(frames, ds).outcomes[m] == Pending
  {
    p := FirstCoveringStep(n, order);
    Transfer(frames, id, n, chunks, order, ds, p);
    var upto := Run(frames, ds[..p + 1]).outcomes;
    assert forall m :: 0 <= m <= p ==> Run(frames, ds).outcomes[m] == upto[m];
  }
}
