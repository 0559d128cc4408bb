/**
 * Whole transfers through the file receiver's loop: the chunks of one file,
 * sent as the sender builds them, arriving in any order and with repeats.
 * However they arrive, the file is written exactly once the last missing
 * chunk arrives, with the chunks in index order under the sanitised name,
 * and its entry is evicted.
 */
module FileTransfers {
  import opened Wrappers
  import opened ByteOrder
  import opened Chunks
  import opened FilePacketCodec
  import opened FileReassembly
  import opened FileReceiver
  import opened FileNames
  import opened Maps

  /**
   * One file as the sender cuts it: n chunks under one name, each of which
   * fits in one datagram of the receive buffer together with the header
   * and the name.
   */
  predicate Sendable(n: int32, name: Bytes, chunks: seq<Bytes>)
  {
    && |chunks| == n
    && |name| < 0x8000
    && forall i :: 0 <= i < |chunks| ==> FILE_HEADER_SIZE + |name| + |chunks[i]| <= BUFFER_SIZE
  }

  /** The datagram carrying chunk k of file id. */
  function ChunkDatagram(id: int64, n: int32, name: Bytes, chunks: seq<Bytes>, k: int32): (d: Bytes)
    requires Sendable(n, name, chunks) && 0 <= k < n
    ensures Carries(d, id, n, name, chunks, k)
  {
    var pkt := FilePacket(id, n, k, name, chunks[k]);
    DecodeEncode(pkt);
    Encode(pkt)
  }

  /** Datagram d parses as chunk k of the file: id, the count n, the name, and chunk k's bytes. */
  predicate Carries(d: Bytes, id: int64, n: int32, name: Bytes, chunks: seq<Bytes>, k: int32)
    requires |chunks| == n && 0 <= k < n
  {
    Parse(d) == Ok(FilePacket(id, n, k, name, chunks[k]))
  }

  /** The entry of file id once the chunks with the indices in `arrived` are inserted. */
  function Partial(id: int64, n: int32, name: Bytes, chunks: seq<Bytes>, arrived: seq<int32>): (a: Assembly)
    requires |chunks| == n
    ensures Consistent(a) && a.fileId == id && a.filename == SanitizeFilename(name)
    ensures Complete(a) <==> Covers(n, arrived)
  {
    var a := Assembly(id, SanitizeFilename(name), n, Slots(n, chunks, arrived), seq(n, i => i in arrived));
    CompleteIffAllPresent(a);
    a
  }

  /** A new entry is the entry with nothing arrived. */
  lemma NewIsPartial(id: int64, n: int32, name: Bytes, chunks: seq<Bytes>)
    requires |chunks| == n
    ensures NewAssembly(id, name, n) == Partial(id, n, name, chunks, [])
  {
  }

  /** Inserting chunk k, whether for the first time or again, adds k to the arrived indices. */
  lemma InsertPartial(id: int64, n: int32, name: Bytes, chunks: seq<Bytes>, arrived: seq<int32>, k: int32)
    requires |chunks| == n && 0 <= k < n
    ensures Insert(Partial(id, n, name, chunks, arrived), k, chunks[k]).assembly
              == Partial(id, n, name, chunks, arrived + [k])
  {
    var a := Partial(id, n, name, chunks, arrived);
    var b := Partial(id, n, name, chunks, arrived + [k]);
    assert forall i :: i in arrived + [k] <==> i in arrived || i == k;
    if k in arrived {
      assert a.parts == b.parts;
      assert a.received == b.received;
    } else {
      assert a.parts[k := Some(chunks[k])] == b.parts;
      assert a.received[k := true] == b.received;
    }
  }

  /**
   * One datagram of the transfer: with the indices in `arrived` already in
   * the entry (no entry when none has), chunk k is ACKed; if every index has
   * now arrived the file is written and evicted, otherwise k joins the entry.
   */
  lemma ChunkStep(table: map<int64, Assembly>, id: int64, n: int32, name: Bytes, chunks: seq<Bytes>,
                  arrived: seq<int32>, k: int32, d: Bytes)
    requires TableInv(table) && |chunks| == n && 0 <= k < n && Carries(d, id, n, name, chunks, k)
    requires arrived == [] ==> id !in table
    requires arrived != [] ==> id in table && table[id] == Partial(id, n, name, chunks, arrived)
    ensures var r := ServerStep(table, d);
            var now := arrived + [k];
            && (Covers(n, now) ==>
                  r == ServerResult(table - {id},
                         Acked(EncodeAck(id, k), Some(FileWrite(SanitizeFilename(name), Concat(chunks))))))
            && (!Covers(n, now) ==>
                  r == ServerResult(table[id := Partial(id, n, name, chunks, now)], Acked(EncodeAck(id, k), None)))
  {
    var pkt := FilePacket(id, n, k, name, chunks[k]);
    if arrived == [] {
      NewIsPartial(id, n, name, chunks);
    }
    assert EntryOf(table, pkt) == Partial(id, n, name, chunks, arrived);
    InsertPartial(id, n, name, chunks, arrived, k);
    AcceptCases(table, pkt);
    var now := arrived + [k];
    if Covers(n, now) {
      FullSlots(n, chunks, now);
    }
  }

  /** ChunkStep as one more step of a loop that has not ended. */
  lemma ChunkNext(r: ServerRun, id: int64, n: int32, name: Bytes, chunks: seq<Bytes>,
                  arrived: seq<int32>, k: int32, d: Bytes)
    requires TableInv(r.table) && !Ended(r.outcomes) && |chunks| == n && 0 <= k < n
    requires Carries(d, id, n, name, chunks, k)
    requires arrived == [] ==> id !in r.table
    requires arrived != [] ==> id in r.table && r.table[id] == Partial(id, n, name, chunks, arrived)
    ensures var next := Next(r, d);
            var now := arrived + [k];
            && (Covers(n, now) ==>
                  next == ServerRun(r.table - {id}, r.outcomes +
                            [Acked(EncodeAck(id, k), Some(FileWrite(SanitizeFilename(name), Concat(chunks))))]))
            && (!Covers(n, now) ==>
                  next == ServerRun(r.table[id := Partial(id, n, name, chunks, now)],
                                    r.outcomes + [Acked(EncodeAck(id, k), None)]))
  {
    ChunkStep(r.table, id, n, name, chunks, arrived, k, d);
  }

  /**
   * The loop after the datagrams of chunks `arrived`, none of which completed
   * the file: each was ACKed without a write, and the table is the one before
   * the transfer with the file's entry holding exactly the chunks arrived.
   */
  predicate Receiving(table: map<int64, Assembly>, id: int64, n: int32, name: Bytes, chunks: seq<Bytes>,
                      arrived: seq<int32>, r: ServerRun)
    requires |chunks| == n
  {
    && |r.outcomes| == |arrived|
    && (forall m :: 0 <= m < |arrived| ==> r.outcomes[m] == Acked(EncodeAck(id, arrived[m]), None))
    && r.table == if arrived == [] then table else table[id := Partial(id, n, name, chunks, arrived)]
  }

  /** Appending the ACK of chunk k to the ACKs of `arrived` gives the ACKs of arrived + [k]. */
  lemma AcksAppend(outcomes: seq<PacketOutcome>, id: int64, arrived: seq<int32>, k: int32)
    requires |outcomes| == |arrived|
    requires forall m :: 0 <= m < |arrived| ==> outcomes[m] == Acked(EncodeAck(id, arrived[m]), None)
    ensures var now, more := arrived + [k], outcomes + [Acked(EncodeAck(id, k), None)];
            forall m :: 0 <= m < |now| ==> more[m] == Acked(EncodeAck(id, now[m]), None)
  {
  }

  /** One more datagram before every index has arrived keeps the loop Receiving. */
  lemma PrefixNext(table: map<int64, Assembly>, id: int64, n: int32, name: Bytes, chunks: seq<Bytes>,
                   arrived: seq<int32>, k: int32, r: ServerRun, d: Bytes)
    requires TableInv(table) && id !in table && |chunks| == n && 0 <= k < n
    requires Carries(d, id, n, name, chunks, k)
    requires TableInv(r.table) && Receiving(table, id, n, name, chunks, arrived, r)
    requires !Covers(n, arrived + [k])
    ensures Receiving(table, id, n, name, chunks, arrived + [k], Next(r, d))
  {
    assert !Ended(r.outcomes) by {
      assert arrived != [] ==> r.outcomes[|arrived| - 1].Acked?;
    }
    ChunkNext(r, id, n, name, chunks, arrived, k, d);
    var entry := Partial(id, n, name, chunks, arrived + [k]);
    AcksAppend(r.outcomes, id, arrived, k);
    if arrived != [] {
      MapUpdateTwice(table, id, Partial(id, n, name, chunks, arrived), entry);
    }
  }

  /**
   * Before the step at which every index has arrived, each datagram is
   * ACKed, nothing is written, and the entry holds exactly the chunks seen.
   */
  lemma {:induction false} TransferPrefix(table: map<int64, Assembly>, id: int64, n: int32, name: Bytes,
                                          chunks: seq<Bytes>, order: seq<int32>, ds: seq<Bytes>, j: nat)
    requires TableInv(table) && id !in table && |chunks| == n
    requires |ds| == |order|
    requires forall m :: 0 <= m < |order| ==> 0 <= order[m] < n && Carries(ds[m], id, n, name, chunks, order[m])
    requires j <= |order| && !Covers(n, order[..j])
    ensures Receiving(table, id, n, name, chunks, order[..j], Run(table, ds[..j]))
  {
    if j == 0 {
      assert ds[..0] == [] && order[..0] == [];
    } else {
      var before := order[..j - 1];
      TakeOneMore(order, j - 1);
      CoversShorter(n, order, j);
      TransferPrefix(table, id, n, name, chunks, order, ds, j - 1);
      RunStep(table, ds, j - 1);
      PrefixNext(table, id, n, name, chunks, before, order[j - 1], Run(table, ds[..j - 1]), ds[j - 1]);
    }
  }

  /**
   * The loop after the datagrams of chunks `arrived`, the last of which
   * completed the file: every earlier one was ACKed without a write, the last
   * was ACKed with the write of the whole file, and the table is as it was
   * before the transfer.
   */
  predicate Completed(table: map<int64, Assembly>, id: int64, name: Bytes, chunks: seq<Bytes>,
                      arrived: seq<int32>, r: ServerRun)
  {
    && |r.outcomes| == |arrived| > 0
    && (forall m :: 0 <= m < |arrived| - 1 ==> r.outcomes[m] == Acked(EncodeAck(id, arrived[m]), None))
    && r.outcomes[|arrived| - 1]
         == Acked(EncodeAck(id, arrived[|arrived| - 1]), Some(FileWrite(SanitizeFilename(name), Concat(chunks))))
    && r.table == table
  }

  /** The datagram that brings the last missing index completes the file. */
  lemma FinalNext(table: map<int64, Assembly>, id: int64, n: int32, name: Bytes, chunks: seq<Bytes>,
                  arrived: seq<int32>, k: int32, r: ServerRun, d: Bytes)
    requires TableInv(table) && id !in table && |chunks| == n && 0 <= k < n
    requires Carries(d, id, n, name, chunks, k)
    requires TableInv(r.table) && Receiving(table, id, n, name, chunks, arrived, r)
    requires Covers(n, arrived + [k])
    ensures Completed(table, id, name, chunks, arrived + [k], Next(r, d))
  {
    assert !Ended(r.outcomes) by {
      assert arrived != [] ==> r.outcomes[|arrived| - 1].Acked?;
    }
    ChunkNext(r, id, n, name, chunks, arrived, k, d);
    if arrived != [] {
      MapRemoveUpdated(table, id, Partial(id, n, name, chunks, arrived));
    }
    MapRemoveAbsent(table, id);
  }

  /**
   * A whole transfer: the chunks of one file arrive in the order `order`,
   * any order with any repeats, each in a datagram that parses as that chunk,
   * and step p is the first after which every index has arrived. Every step
   * before p is ACKed and writes nothing; step p writes the file's chunks in
   * index order under its sanitised name and evicts the entry, leaving the
   * table as it was before the transfer.
   */
  lemma Transfer(table: map<int64, Assembly>, id: int64, n: int32, name: Bytes,
                 chunks: seq<Bytes>, order: seq<int32>, ds: seq<Bytes>, p: nat)
    requires TableInv(table) && id !in table && |chunks| == n
    requires |ds| == |order|
    requires forall m :: 0 <= m < |order| ==> 0 <= order[m] < n && Carries(ds[m], id, n, name, chunks, order[m])
    requires p < |order| && !Covers(n, order[..p]) && Covers(n, order[..p + 1])
    ensures Completed(table, id, name, chunks, order[..p + 1], Run(table, ds[..p + 1]))
    ensures Run(table, ds[..p + 1]).outcomes <= Run(table, ds).outcomes
  {
    TransferPrefix(table, id, n, name, chunks, order, ds, p);
    TakeOneMore(order, p);
    RunStep(table, ds, p);
    FinalNext(table, id, n, name, chunks, order[..p], order[p], Run(table, ds[..p]), ds[p]);
    RunPrefix(table, ds, p + 1);
  }

  /**
   * The transfer seen from the whole run: however the chunks of a non-empty
   * file arrive, as long as every index does, some step writes the chunks in
   * index order under the sanitised name, and every step before it is an ACK
   * without a write.
   */
  lemma WrittenOnce(table: map<int64, Assembly>, id: int64, n: int32, name: Bytes,
                    chunks: seq<Bytes>, order: seq<int32>, ds: seq<Bytes>) returns (p: nat)
    requires TableInv(table) && id !in table && |chunks| == n && 0 < n
    requires |ds| == |order|
    requires forall m :: 0 <= m < |order| ==> 0 <= order[m] < n && Carries(ds[m], id, n, name, chunks, order[m])
    requires Covers(n, order)
    ensures p < |order| && p < |Run(table, ds).outcomes|
    ensures Run(table, ds).outcomes[p]
              == Acked(EncodeAck(id, order[p]), Some(FileWrite(SanitizeFilename(name), Concat(chunks))))
    ensures forall m :: 0 <= m < p ==> Run(table, ds).outcomes[m] == Acked(EncodeAck(id, order[m]), None)
  {
    p := FirstCoveringStep(n, order);
    Transfer(table, id, n, name, chunks, order, ds, p);
    var upto := Run(table, ds[..p + 1]).outcomes;
    assert forall m :: 0 <= m <= p ==> Run(table, ds).outcomes[m] == upto[m] && order[..p + 1][m] == order[m];
  }
}
