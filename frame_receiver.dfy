/**
 * One iteration of ClientHandler.main's receive loop
 * (src/main/java/client/ClientHandler.java:56-176): receive a datagram into the
 * PACKET_SIZE buffer, skip it when it cannot hold a header, find or create the
 * frame's FrameBuffer (putIfAbsent), store the part, and when the count
 * reaches the packet's totalParts assemble the frame and remove its buffer.
 *
 * `ClientStep` specifies the step on a map of FrameState values; the class
 * `ClientHandler` performs it on FrameBuffer objects.
 */
module FrameReceiver {
  import opened Wrappers
  import opened Maps
  import opened ByteOrder
  import opened Datagrams
  import opened Chunks
  import opened Protocol
  import opened FrameCodec
  import opened FrameReassembly

  /** An exception thrown out of main, which ends the loop. */
  datatype Crash =
    | PartIndexOutOfRange  // parts[partNumber] with partNumber >= parts.length (line 115)
    | MissingPart          // assembleFrame reads the length of a null part (line 182)

  datatype FrameOutcome =
    | Skipped                                  // nothing received, or too short for a header
    | Pending                                  // part stored or ignored; the frame is not done
    | Displayed(frameId: int32, image: Bytes)  // assembled, handed to the widget and the saver
    | Crashed(reason: Crash)

  datatype ClientResult = ClientResult(frames: map<int32, FrameState>, outcome: FrameOutcome)

  /**
   * What every buffer satisfies: it counts its filled slots, its size came
   * from an unsigned 16-bit field, and each stored payload fits one packet.
   */
  predicate BufferInv(f: FrameState)
  {
    && Counted(f)
    && 0 <= f.totalParts <= 0xFFFF
    && forall i :: 0 <= i < |f.parts| && f.parts[i].Some? ==> |f.parts[i].value| <= PAYLOAD_SIZE
  }

  predicate FramesInv(frames: map<int32, FrameState>)
  {
    forall id :: id in frames ==> BufferInv(frames[id])
  }

  /** receivedParts never exceeds totalParts, and reaches it exactly when every slot is filled. */
  lemma CountBounded(f: FrameState)
    requires Counted(f)
    ensures f.receivedParts <= f.totalParts
    ensures f.receivedParts == f.totalParts <==> AllPresent(f.parts)
  {
    CountPresentFull(f.parts);
  }

  /**
   * No int overflow in assembleFrame: at most 65535 parts of at most
   * PAYLOAD_SIZE bytes make at most 91,224,720 bytes, below Integer.MAX_VALUE.
   */
  lemma FrameSizeFitsInt(f: FrameState)
    requires BufferInv(f) && AllPresent(f.parts)
    ensures TotalLength(Values(f.parts)) <= 0xFFFF * PAYLOAD_SIZE < INT_MAX
  {
    TotalLengthBound(Values(f.parts), PAYLOAD_SIZE);
  }

  /** frames.putIfAbsent(frameId, new FrameBuffer(totalParts)) followed by frames.get(frameId). */
  function BufferOf(frames: map<int32, FrameState>, h: FrameHeader): (f: FrameState)
    requires FramesInv(frames)
    ensures BufferInv(f)
  {
    if h.frameId in frames then frames[h.frameId] else NewFrame(h.totalParts)
  }

  /** Lines 106-174 for a decoded packet whose payload fits one packet. */
  function Deliver(frames: map<int32, FrameState>, pkt: FramePacket): (r: ClientResult)
    requires FramesInv(frames) && |pkt.payload| <= PAYLOAD_SIZE
    ensures FramesInv(r.frames)
  {
    var h := pkt.header;
    var id := h.frameId;
    var buffer := BufferOf(frames, h);
    match StorePart(buffer, h.partNumber, pkt.payload)
    case None => ClientResult(frames[id := buffer], Crashed(PartIndexOutOfRange))
    case Some(f) =>
      if f.receivedParts != h.totalParts then ClientResult(frames[id := f], Pending)
      else if !AllPresent(f.parts) then ClientResult(frames[id := f], Crashed(MissingPart))
      else ClientResult(frames - {id}, Displayed(id, Concat(Values(f.parts))))
  }

  /** The loop body with the socket, the clock, the widget and the saver left out. */
  function ClientStep(frames: map<int32, FrameState>, d: Bytes): (r: ClientResult)
    requires FramesInv(frames)
    ensures FramesInv(r.frames)
  {
    match ReceiveFrame(d)
    case None => ClientResult(frames, Skipped)
    case Some(pkt) => Deliver(frames, pkt)
  }

  /** Deliver in its cases, named by the buffer found or created and the result of the store. */
  lemma DeliverCases(frames: map<int32, FrameState>, pkt: FramePacket)
    requires FramesInv(frames) && |pkt.payload| <= PAYLOAD_SIZE
    ensures var h := pkt.header;
            var buffer := BufferOf(frames, h);
            var stored := StorePart(buffer, h.partNumber, pkt.payload);
            var r := Deliver(frames, pkt);
            && (stored.None? ==> r == ClientResult(frames[h.frameId := buffer], Crashed(PartIndexOutOfRange)))
            && (stored.Some? && stored.value.receivedParts != h.totalParts ==>
                  r == ClientResult(frames[h.frameId := stored.value], Pending))
            && (stored.Some? && stored.value.receivedParts == h.totalParts && !AllPresent(stored.value.parts) ==>
                  r == ClientResult(frames[h.frameId := stored.value], Crashed(MissingPart)))
            && (stored.Some? && stored.value.receivedParts == h.totalParts && AllPresent(stored.value.parts) ==>
                  r == ClientResult(frames - {h.frameId}, Displayed(h.frameId, Concat(Values(stored.value.parts)))))
  {
  }

  /**
   * Lines 61-71 and 88-91: a datagram that cannot hold the 8-byte header,
   * after the cut to PACKET_SIZE, is skipped and the table is untouched; every
   * other datagram is processed.
   */
  lemma ShortPacketSkipped(frames: map<int32, FrameState>, d: Bytes)
    requires FramesInv(frames)
    ensures var r := ClientStep(frames, d);
            && (r.outcome == Skipped <==> |ReceiveInto(d, PACKET_SIZE)| < HEADER_SIZE)
            && (r.outcome == Skipped ==> r.frames == frames)
  {
  }

  /**
   * putIfAbsent: the first packet of a frame sizes its buffer, and a later
   * packet never replaces the buffer, never resizes it and never overwrites a
   * part already stored.
   */
  lemma FirstPacketWins(frames: map<int32, FrameState>, d: Bytes)
    requires FramesInv(frames) && ReceiveFrame(d).Some?
    ensures var h := ReceiveFrame(d).value.header;
            var r := ClientStep(frames, d);
            && (h.frameId in r.frames && h.frameId !in frames ==> r.frames[h.frameId].totalParts == h.totalParts)
            && (h.frameId in r.frames && h.frameId in frames ==>
                  && r.frames[h.frameId].totalParts == frames[h.frameId].totalParts
                  && forall i :: 0 <= i < frames[h.frameId].totalParts && frames[h.frameId].parts[i].Some? ==>
                       r.frames[h.frameId].parts[i] == frames[h.frameId].parts[i])
  {
    DeliverCases(frames, ReceiveFrame(d).value);
  }

  /**
   * Lines 115-118: a part whose slot is already filled changes neither the
   * slot nor the count, so the table is as it was, unless the packet's
   * totalParts equals the count and the frame is assembled and removed.
   */
  lemma DuplicateIgnored(frames: map<int32, FrameState>, d: Bytes)
    requires FramesInv(frames) && ReceiveFrame(d).Some?
    requires var h := ReceiveFrame(d).value.header;
             h.frameId in frames && h.partNumber < frames[h.frameId].totalParts
             && frames[h.frameId].parts[h.partNumber].Some?
    ensures var h := ReceiveFrame(d).value.header;
            var r := ClientStep(frames, d);
            && r.outcome != Crashed(PartIndexOutOfRange)
            && r.frames == if r.outcome.Displayed? then frames - {h.frameId} else frames
  {
    var pkt := ReceiveFrame(d).value;
    DeliverCases(frames, pkt);
    MapUpdateSame(frames, pkt.header.frameId);
  }

  /** Only the packet's own frame is touched. */
  lemma OtherFramesUntouched(frames: map<int32, FrameState>, d: Bytes, other: int32)
    requires FramesInv(frames)
    requires ReceiveFrame(d).Some? ==> other != ReceiveFrame(d).value.header.frameId
    ensures var r := ClientStep(frames, d);
            (other in r.frames <==> other in frames) && (other in frames ==> r.frames[other] == frames[other])
  {
  }

  /**
   * partNumber has no guard (line 115): the loop dies exactly when the part
   * number is not below the size of the frame's buffer, and the buffer, if
   * new, is already in the table. A frame announced with totalParts = 0
   * therefore always ends the loop.
   */
  lemma UnguardedPartNumber(frames: map<int32, FrameState>, d: Bytes)
    requires FramesInv(frames)
    ensures var r := ClientStep(frames, d);
            r.outcome == Crashed(PartIndexOutOfRange) <==>
              ReceiveFrame(d).Some? &&
              ReceiveFrame(d).value.header.partNumber >= BufferOf(frames, ReceiveFrame(d).value.header).totalParts
    ensures var r := ClientStep(frames, d);
            r.outcome == Crashed(PartIndexOutOfRange) ==> ReceiveFrame(d).value.header.frameId in r.frames
  {
    if ReceiveFrame(d).Some? {
      DeliverCases(frames, ReceiveFrame(d).value);
    }
  }

  /**
   * Lines 120, 144 and 164 when the packet's totalParts agrees with the size
   * of the frame's buffer (as the first packet's always does): assembleFrame
   * never meets a null part, and the frame is displayed and removed exactly
   * when, after the store, every slot is filled; the image is the parts
   * concatenated in index order.
   */
  lemma ConsistentFrameCompletes(frames: map<int32, FrameState>, d: Bytes)
    requires FramesInv(frames) && ReceiveFrame(d).Some?
    requires var h := ReceiveFrame(d).value.header;
             h.totalParts == BufferOf(frames, h).totalParts && h.partNumber < h.totalParts
    ensures var pkt := ReceiveFrame(d).value;
            var h := pkt.header;
            var f := StorePart(BufferOf(frames, h), h.partNumber, pkt.payload).value;
            var r := ClientStep(frames, d);
            && r.outcome != Crashed(MissingPart)
            && (r.outcome.Displayed? <==> AllPresent(f.parts))
            && (r.outcome.Displayed? ==>
                  h.frameId !in r.frames && r.outcome == Displayed(h.frameId, Concat(Values(f.parts))))
            && (r.outcome.Pending? ==> r.frames == frames[h.frameId := f])
  {
    var pkt := ReceiveFrame(d).value;
    var h := pkt.header;
    DeliverCases(frames, pkt);
    CountBounded(StorePart(BufferOf(frames, h), h.partNumber, pkt.payload).value);
  }

  /**
   * Completion compares the count with the packet's own totalParts (line 120),
   * not the buffer's: a duplicate of part 0 announcing one part, sent to a
   * two-part frame with part 0 stored, makes assembleFrame meet the null part 1.
   */
  lemma MissingPartExample()
    ensures var buffer := FrameState(2, [Some([1]), None], 1);
            var d := EncodeFrame(FramePacket(FrameHeader(7, 1, 0), [1]));
            FramesInv(map[7 := buffer]) &&
            ClientStep(map[7 := buffer], d) == ClientResult(map[7 := buffer], Crashed(MissingPart))
  {
    var buffer := FrameState(2, [Some([1]), None], 1);
    var parts: seq<Option<Bytes>> := [Some([1]), None];
    assert parts[..1] == [Some([1])];
    assert [Some([1])][..0] == [];
    assert CountPresent(parts) == 1;
    var pkt := FramePacket(FrameHeader(7, 1, 0), [1]);
    DecodeEncodeFrame(pkt);
    var frames := map[7 := buffer];
    DeliverCases(frames, pkt);
    MapUpdateSame(frames, 7);
  }

  /**
   * A late copy of a part of a frame already displayed finds no buffer and
   * starts a new one: a one-part frame is displayed again from that copy, and
   * a larger frame leaves a buffer holding one part that nothing removes.
   */
  lemma LateCopyReopensFrame(frames: map<int32, FrameState>, d: Bytes)
    requires FramesInv(frames) && ClientStep(frames, d).outcome.Displayed?
    ensures var pkt := ReceiveFrame(d).value;
            var h := pkt.header;
            var r := ClientStep(frames, d);
            var again := ClientStep(r.frames, d);
            && (h.totalParts == 1 ==> again.outcome == Displayed(h.frameId, pkt.payload) && again.frames == r.frames)
            && (h.totalParts > 1 ==>
                  && again.outcome == Pending
                  && h.frameId in again.frames && again.frames[h.frameId].receivedParts == 1)
  {
    var pkt := ReceiveFrame(d).value;
    var h := pkt.header;
    DeliverCases(frames, pkt);
    var f := StorePart(BufferOf(frames, h), h.partNumber, pkt.payload).value;
    CountBounded(f);
    var r := ClientStep(frames, d);
    DeliverCases(r.frames, pkt);
    if h.totalParts == 1 {
      var g := StorePart(NewFrame(1), h.partNumber, pkt.payload).value;
      assert g.parts == [Some(pkt.payload)];
      assert Values(g.parts) == [pkt.payload];
      assert Concat([pkt.payload]) == pkt.payload by {
        var one: seq<Bytes> := [pkt.payload];
        assert one[..0] == [];
      }
      MapRemoveAbsent(r.frames, h.frameId);
    }
  }

  /** The loop has ended: its last outcome is an exception out of main. */
  predicate Ended(outcomes: seq<FrameOutcome>)
  {
    outcomes != [] && outcomes[|outcomes| - 1].Crashed?
  }

  datatype ClientRun = ClientRun(frames: map<int32, FrameState>, outcomes: seq<FrameOutcome>)

  /** The loop after one more datagram: nothing once it has ended, otherwise one more step. */
  function Next(r: ClientRun, d: Bytes): (next: ClientRun)
    requires FramesInv(r.frames)
    ensures FramesInv(next.frames)
  {
    if Ended(r.outcomes) then r
    else
      var s := ClientStep(r.frames, d);
      ClientRun(s.frames, r.outcomes + [s.outcome])
  }

  /**
   * The loop of lines 56-176 fed the datagrams ds in order: one outcome per
   * datagram until the first Crashed, after which nothing more is received.
   */
  function Run(frames: map<int32, FrameState>, ds: seq<Bytes>): (r: ClientRun)
    requires FramesInv(frames)
    ensures FramesInv(r.frames)
    ensures |r.outcomes| <= |ds|
    ensures forall j :: 0 <= j < |r.outcomes| - 1 ==> !r.outcomes[j].Crashed?
    ensures |r.outcomes| < |ds| ==> Ended(r.outcomes)
    decreases |ds|
  {
    if ds == [] then ClientRun(frames, [])
    else Next(Run(frames, ds[..|ds| - 1]), ds[|ds| - 1])
  }

  /** Each further datagram is one Next. */
  lemma RunStep(frames: map<int32, FrameState>, ds: seq<Bytes>, j: nat)
    requires FramesInv(frames) && j < |ds|
    ensures Run(frames, ds[..j + 1]) == Next(Run(frames, ds[..j]), ds[j])
  {
    var pre := ds[..j + 1];
    assert pre != [] && |pre| - 1 == j;
    assert pre[..j] == ds[..j] && pre[j] == ds[j];
  }

  /**
   * Running on a prefix of the datagrams gives a prefix of the outcomes, and
   * once the loop has ended the later datagrams change nothing.
   */
  lemma {:induction false} RunPrefix(frames: map<int32, FrameState>, ds: seq<Bytes>, k: nat)
    requires FramesInv(frames) && k <= |ds|
    ensures Run(frames, ds[..k]).outcomes <= Run(frames, ds).outcomes
    ensures Ended(Run(frames, ds[..k]).outcomes) ==> Run(frames, ds) == Run(frames, ds[..k])
    decreases |ds|
  {
    if k < |ds| {
      var init := ds[..|ds| - 1];
      assert init[..k] == ds[..k];
      RunPrefix(frames, init, k);
    } else {
      assert ds[..k] == ds;
    }
  }

  /** The receive loop's state: the `frames` map and the FrameBuffer objects it holds. */
  class ClientHandler {
    var frames: map<int32, FrameBuffer>
    ghost var Repr: set<object>

    /** Every buffer and its slot array belong to Repr. */
    ghost predicate Framed()
      reads this, Repr
    {
      && this in Repr
      && forall id :: id in frames ==> frames[id] in Repr && frames[id].parts in Repr
    }

    /** The value of every buffer. */
    ghost function Frames(): map<int32, FrameState>
      reads this, Repr
      requires Framed()
    {
      map id | id in frames :: frames[id].State()
    }

    /** Distinct frames have distinct buffers and arrays, and every buffer keeps BufferInv. */
    ghost predicate Valid()
      reads this, Repr
    {
      && Framed()
      && (forall i, j :: i in frames && j in frames && i != j ==>
            frames[i] != frames[j] && frames[i].parts != frames[j].parts)
      && FramesInv(Frames())
    }

    constructor ()
      ensures Valid() && Frames() == map[] && fresh(Repr)
    {
      frames := map[];
      Repr := {this};
    }

    /** frames.put(id, fb) for a new buffer. */
    method Add(id: int32, fb: FrameBuffer)
      requires Valid() && id !in frames && fb !in Repr && fb.parts !in Repr
      requires BufferInv(fb.State())
      modifies this
      ensures Valid() && Repr == old(Repr) + {fb, fb.parts}
      ensures frames == old(frames)[id := fb]
      ensures Frames() == old(Frames())[id := fb.State()]
    {
      ghost var after := old(Frames())[id := fb.State()];
      frames := frames[id := fb];
      Repr := Repr + {fb, fb.parts};
      assert Frames() == after by {
        forall k | k in frames
          ensures frames[k].State() == after[k]
        {
        }
      }
      FramesInvUpdate(old(Frames()), id, fb.State());
    }

    /** frames.putIfAbsent(frameId, new FrameBuffer(totalParts)); frames.get(frameId). */
    method PutIfAbsent(h: FrameHeader) returns (fb: FrameBuffer)
      requires Valid()
      modifies this
      ensures Valid() && fresh(Repr - old(Repr))
      ensures h.frameId in frames && fb == frames[h.frameId]
      ensures Frames() == old(Frames())[h.frameId := BufferOf(old(Frames()), h)]
    {
      var created := new FrameBuffer(h.totalParts);
      if h.frameId !in frames {
        Add(h.frameId, created);
      } else {
        MapUpdateSame(Frames(), h.frameId);
      }
      fb := frames[h.frameId];
    }

    /** Lines 115-118 on the buffer of frame id; false where Java throws, and then nothing changed. */
    method StoreInto(id: int32, partNumber: int, payload: Bytes) returns (inRange: bool)
      requires Valid() && id in frames && |payload| <= PAYLOAD_SIZE
      modifies frames[id], frames[id].parts
      ensures Valid()
      ensures var stored := StorePart(old(Frames())[id], partNumber, payload);
              && (inRange <==> stored.Some?)
              && Frames() == if inRange then old(Frames())[id := stored.value] else old(Frames())
    {
      var fb := frames[id];
      ghost var before := Frames();
      assert before[id] == fb.State();
      inRange := fb.Store(partNumber, payload);
      ghost var after := before[id := fb.State()];
      forall k | k in frames
        ensures frames[k].State() == after[k]
      {
        if k != id {
          assert frames[k] != fb && frames[k].parts != fb.parts;
        }
      }
      assert Frames() == after;
      FramesInvUpdate(before, id, fb.State());
      if !inRange {
        MapUpdateSame(before, id);
      }
    }

    /** frames.remove(frameId). */
    method Remove(id: int32)
      requires Valid()
      modifies this
      ensures Valid() && Repr == old(Repr)
      ensures Frames() == old(Frames()) - {id}
    {
      ghost var after := old(Frames()) - {id};
      frames := frames - {id};
      assert Frames() == after by {
        forall k | k in frames
          ensures frames[k].State() == after[k]
        {
        }
      }
    }

    /**
     * Lines 120-164 once the count has reached the packet's totalParts:
     * assembleFrame, which throws on a null part, then frames.remove.
     */
    method Finish(id: int32) returns (outcome: FrameOutcome)
      requires Valid() && id in frames
      modifies this
      ensures Valid() && Repr == old(Repr)
      ensures var f := old(Frames())[id];
              && (!AllPresent(f.parts) ==> outcome == Crashed(MissingPart) && Frames() == old(Frames()))
              && (AllPresent(f.parts) ==>
                    outcome == Displayed(id, Concat(Values(f.parts))) && Frames() == old(Frames()) - {id})
    {
      var fb := frames[id];
      assert Frames()[id] == fb.State();
      if AllPresent(fb.parts[..]) {
        FrameSizeFitsInt(fb.State());
      }
      var image := AssembleFrame(fb);
      if image.None? {
        return Crashed(MissingPart);
      }
      Remove(id);
      return Displayed(id, image.value);
    }

    /** Lines 106-174 for a decoded packet. */
    method DeliverPacket(pkt: FramePacket) returns (outcome: FrameOutcome)
      requires Valid() && |pkt.payload| <= PAYLOAD_SIZE
      modifies Repr
      ensures Valid() && fresh(Repr - old(Repr))
      ensures Deliver(old(Frames()), pkt) == ClientResult(Frames(), outcome)
    {
      ghost var t0 := Frames();
      var h := pkt.header;
      var fb := PutIfAbsent(h);
      DeliverCases(t0, pkt);
      var inRange := StoreInto(h.frameId, h.partNumber, pkt.payload);
      if !inRange {
        return Crashed(PartIndexOutOfRange);
      }
      ghost var f := StorePart(BufferOf(t0, h), h.partNumber, pkt.payload).value;
      MapUpdateTwice(t0, h.frameId, BufferOf(t0, h), f);
      assert fb.receivedParts == f.receivedParts;
      if fb.receivedParts == h.totalParts {
        outcome := Finish(h.frameId);
        MapRemoveUpdated(t0, h.frameId, f);
      } else {
        outcome := Pending;
      }
    }

    /**
     * One iteration of the loop: receive d into the PACKET_SIZE buffer, skip
     * it if it cannot hold a header, otherwise decode and deliver it.
     */
    method Receive(d: Bytes) returns (outcome: FrameOutcome)
      requires Valid()
      modifies Repr
      ensures Valid() && fresh(Repr - old(Repr))
      ensures ClientStep(old(Frames()), d) == ClientResult(Frames(), outcome)
    {
      var buf := ReceiveInto(d, PACKET_SIZE);
      if |buf| == 0 || |buf| < HEADER_SIZE {
        return Skipped;
      }
      var pkt := DecodeFrame(buf).value;
      outcome := DeliverPacket(pkt);
    }

    /**
     * The `while (true)` loop of main over the datagrams ds: receives them in
     * order until one throws out of main or ds runs out.
     */
    method ReceiveAll(ds: seq<Bytes>) returns (outcomes: seq<FrameOutcome>)
      requires Valid()
      modifies Repr
      ensures Valid() && fresh(Repr - old(Repr))
      ensures Run(old(Frames()), ds) == ClientRun(Frames(), outcomes)
    {
      ghost var f0 := Frames();
      outcomes := [];
      var i := 0;
      while i < |ds| && !Ended(outcomes)
        invariant i <= |ds|
        invariant Valid() && fresh(Repr - old(Repr))
        invariant Run(f0, ds[..i]) == ClientRun(Frames(), outcomes)
      {
        assert ds[..i + 1][..i] == ds[..i];
        var outcome := Receive(ds[i]);
        outcomes := outcomes + [outcome];
        i := i + 1;
      }
      RunPrefix(f0, ds, i);
      assert i == |ds| ==> ds[..i] == ds;
    }
  }

  lemma FramesInvUpdate(frames: map<int32, FrameState>, id: int32, f: FrameState)
    requires FramesInv(frames) && BufferInv(f)
    ensures FramesInv(frames[id := f])
  {
  }

}
