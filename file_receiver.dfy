/**
 * One iteration of ServerHandler.start's receive loop
 * (src/main/java/server/ServerHandler.java:46-79): parse the datagram, find or
 * create the file's FileAssembly (computeIfAbsent), insert the chunk, ACK it,
 * and when the file is complete hand its name and bytes to the writer and evict it.
 *
 * `ServerStep` specifies the step on a map of Assembly values; the class
 * `ServerHandler` performs it on FileAssembly objects.
 */
module FileReceiver {
  import opened Wrappers
  import opened Maps
  import opened ByteOrder
  import opened Datagrams
  import opened Chunks
  import opened FilePacketCodec
  import opened FileReassembly
  import FileNames

  /** BUFFER_SIZE: a longer datagram is cut to this many bytes by the receive call. */
  const BUFFER_SIZE: nat := 64_000

  /** Why the loop ends: an exception thrown out of start(). */
  datatype StopReason =
    | Malformed(error: DecodeError)  // from the parse
    | NegativeChunkCount             // new byte[totalChunks][] for a first packet with totalChunks < 0

  /** What Files.write would be given: the sanitised name and the assembled bytes. */
  datatype FileWrite = FileWrite(filename: Bytes, contents: Bytes)

  datatype PacketOutcome =
    | Stopped(reason: StopReason)
    | Acked(ack: Bytes, written: Option<FileWrite>)

  datatype ServerResult = ServerResult(table: map<int64, Assembly>, outcome: PacketOutcome)

  /** The datagram's bytes as the loop parses them. */
  function Parse(d: Bytes): Result<FilePacket, DecodeError>
  {
    Decode(ReceiveInto(d, BUFFER_SIZE))
  }

  /** Each entry is keyed by its own fileId, is consistent and carries a sanitised (safe) name. */
  predicate Keyed(table: map<int64, Assembly>)
  {
    forall id :: id in table ==>
      table[id].fileId == id && Consistent(table[id]) && FileNames.SafeName(table[id].filename)
  }

  /**
   * Every table the loop can reach between two packets: keyed, and with no
   * complete entry (a completed entry is evicted in the step that completes it).
   */
  predicate TableInv(table: map<int64, Assembly>)
  {
    Keyed(table) && forall id :: id in table ==> !Complete(table[id])
  }

  /** Whether the packet gets past computeIfAbsent: a first packet needs a non-negative chunk count. */
  predicate Admitted(table: map<int64, Assembly>, pkt: FilePacket)
  {
    pkt.fileId in table || pkt.totalChunks >= 0
  }

  /** The entry computeIfAbsent returns: the file's entry, or a new one built from this packet. */
  function EntryOf(table: map<int64, Assembly>, pkt: FilePacket): (a: Assembly)
    requires TableInv(table) && Admitted(table, pkt)
    ensures Consistent(a) && a.fileId == pkt.fileId && FileNames.SafeName(a.filename)
  {
    if pkt.fileId in table then table[pkt.fileId] else NewAssembly(pkt.fileId, pkt.name, pkt.totalChunks)
  }

  /** Lines 67-77 for a parsed packet: insert, ACK, and on completion write and evict. */
  function Accept(table: map<int64, Assembly>, pkt: FilePacket): (r: ServerResult)
    requires TableInv(table) && Admitted(table, pkt)
    ensures TableInv(r.table)
  {
    var id := pkt.fileId;
    var a := Insert(EntryOf(table, pkt), pkt.chunkIndex, pkt.data).assembly;
    var ack := EncodeAck(id, pkt.chunkIndex);
    if Complete(a) then
      CompleteIffAllPresent(a);
      ServerResult(table - {id}, Acked(ack, Some(FileWrite(a.filename, Concat(Values(a.parts))))))
    else
      ServerResult(table[id := a], Acked(ack, None))
  }

  /** The loop body, lines 47-78, with the socket and the file system left out. */
  function ServerStep(table: map<int64, Assembly>, d: Bytes): (r: ServerResult)
    requires TableInv(table)
    ensures TableInv(r.table)
  {
    match Parse(d)
    case Err(e) => ServerResult(table, Stopped(Malformed(e)))
    case Ok(pkt) =>
      if !Admitted(table, pkt) then ServerResult(table, Stopped(NegativeChunkCount))
      else Accept(table, pkt)
  }

  /**
   * A parsed packet is ACKed with EncodeAck(fileId, chunkIndex) whether its
   * chunk was inserted, was a duplicate or was out of range; the loop stops only
   * on a malformed packet or a negative chunk count in a file's first packet,
   * and then the table is unchanged.
   */
  lemma StepAcksEveryPacket(table: map<int64, Assembly>, d: Bytes)
    requires TableInv(table)
    ensures var r := ServerStep(table, d);
            && (r.outcome.Stopped? <==>
                  Parse(d).Err? || (Parse(d).value.fileId !in table && Parse(d).value.totalChunks < 0))
            && (r.outcome.Stopped? ==> r.table == table)
            && (r.outcome.Acked? ==>
                  r.outcome.ack == EncodeAck(Parse(d).value.fileId, Parse(d).value.chunkIndex))
  {
  }

  /**
   * The first packet of a file fixes its sanitised name and its chunk count
   * (computeIfAbsent); later packets with other values do not change them.
   */
  lemma FirstPacketFixesEntry(table: map<int64, Assembly>, d: Bytes)
    requires TableInv(table) && Parse(d).Ok?
    ensures var pkt := Parse(d).value;
            var r := ServerStep(table, d);
            && (pkt.fileId in table && pkt.fileId in r.table ==>
                  r.table[pkt.fileId].filename == table[pkt.fileId].filename
                  && r.table[pkt.fileId].totalChunks == table[pkt.fileId].totalChunks)
            && (pkt.fileId !in table && pkt.fileId in r.table ==>
                  r.table[pkt.fileId].filename == FileNames.SanitizeFilename(pkt.name)
                  && r.table[pkt.fileId].totalChunks == pkt.totalChunks)
  {
  }

  /** Only the packet's own file is touched: every other entry keeps its key and its state. */
  lemma OtherFilesUntouched(table: map<int64, Assembly>, d: Bytes, other: int64)
    requires TableInv(table)
    requires Parse(d).Ok? ==> other != Parse(d).value.fileId
    ensures var r := ServerStep(table, d);
            (other in r.table <==> other in table) && (other in table ==> r.table[other] == table[other])
  {
  }

  /**
   * A file is written exactly when the packet completes it, and then its entry
   * is gone; what is written is its chunks in index order under its sanitised name.
   */
  lemma CompletionWritesAndEvicts(table: map<int64, Assembly>, d: Bytes)
    requires TableInv(table)
    ensures var r := ServerStep(table, d);
            r.outcome.Acked? ==>
              var id := Parse(d).value.fileId;
              && (r.outcome.written.Some? <==> id !in r.table)
              && (r.outcome.written.Some? ==>
                    var a := if id in table then table[id] else NewAssembly(id, Parse(d).value.name, Parse(d).value.totalChunks);
                    var done := Insert(a, Parse(d).value.chunkIndex, Parse(d).value.data).assembly;
                    && AllPresent(done.parts)
                    && r.outcome.written.value == FileWrite(a.filename, Concat(Values(done.parts)))
                    && FileNames.SafeName(r.outcome.written.value.filename))
  {
    var r := ServerStep(table, d);
    if r.outcome.Acked? && r.outcome.written.Some? {
      var pkt := Parse(d).value;
      var a := if pkt.fileId in table then table[pkt.fileId] else NewAssembly(pkt.fileId, pkt.name, pkt.totalChunks);
      CompleteIffAllPresent(Insert(a, pkt.chunkIndex, pkt.data).assembly);
    }
  }

  /**
   * Redelivery is harmless: a datagram delivered again after a step that did
   * not complete its file leaves the table as it is and sends the same ACK.
   */
  lemma RedeliveryIdempotent(table: map<int64, Assembly>, d: Bytes)
    requires TableInv(table)
    requires ServerStep(table, d).outcome.Acked? && ServerStep(table, d).outcome.written.None?
    ensures var r := ServerStep(table, d);
            ServerStep(r.table, d) == r
  {
    var pkt := Parse(d).value;
    var entry := EntryOf(table, pkt);
    var done := Insert(entry, pkt.chunkIndex, pkt.data).assembly;
    AcceptCases(table, pkt);
    var r := ServerStep(table, d);
    assert r.table == table[pkt.fileId := done];
    InsertIdempotent(entry, pkt.chunkIndex, pkt.data, pkt.data);
    assert EntryOf(r.table, pkt) == done;
    AcceptCases(r.table, pkt);
    MapUpdateTwice(table, pkt.fileId, done, done);
  }

  /** The loop has ended: its last outcome is an exception out of start(). */
  predicate Ended(outcomes: seq<PacketOutcome>)
  {
    outcomes != [] && outcomes[|outcomes| - 1].Stopped?
  }

  datatype ServerRun = ServerRun(table: map<int64, Assembly>, outcomes: seq<PacketOutcome>)

  /** The loop after one more datagram: nothing once it has ended, otherwise one more step. */
  function Next(r: ServerRun, d: Bytes): (next: ServerRun)
    requires TableInv(r.table)
    ensures TableInv(next.table)
  {
    if Ended(r.outcomes) then r
    else
      var s := ServerStep(r.table, d);
      ServerRun(s.table, r.outcomes + [s.outcome])
  }

  /**
   * The loop of lines 46-79 fed the datagrams ds in order: one outcome per
   * datagram until the first Stopped, after which nothing more is received.
   */
  function Run(table: map<int64, Assembly>, ds: seq<Bytes>): (r: ServerRun)
    requires TableInv(table)
    ensures TableInv(r.table)
    ensures |r.outcomes| <= |ds|
    ensures forall j :: 0 <= j < |r.outcomes| - 1 ==> r.outcomes[j].Acked?
    ensures |r.outcomes| < |ds| ==> Ended(r.outcomes)
    decreases |ds|
  {
    if ds == [] then ServerRun(table, [])
    else Next(Run(table, ds[..|ds| - 1]), ds[|ds| - 1])
  }

  /** Each further datagram is one Next. */
  lemma RunStep(table: map<int64, Assembly>, ds: seq<Bytes>, j: nat)
    requires TableInv(table) && j < |ds|
    ensures Run(table, ds[..j + 1]) == Next(Run(table, ds[..j]), ds[j])
  {
    var pre := ds[..j + 1];
    assert pre != [] && |pre| - 1 == j;
    assert pre[..j] == ds[..j] && pre[j] == ds[j];
  }

  /**
   * Running on a prefix of the datagrams gives a prefix of the outcomes, and
   * once the loop has ended the later datagrams change nothing.
   */
  lemma {:induction false} RunPrefix(table: map<int64, Assembly>, ds: seq<Bytes>, k: nat)
    requires TableInv(table) && k <= |ds|
    ensures Run(table, ds[..k]).outcomes <= Run(table, ds).outcomes
    ensures Ended(Run(table, ds[..k]).outcomes) ==> Run(table, ds) == Run(table, ds[..k])
    decreases |ds|
  {
    if k < |ds| {
      var init := ds[..|ds| - 1];
      assert init[..k] == ds[..k];
      RunPrefix(table, init, k);
    } else {
      assert ds[..k] == ds;
    }
  }

  /** The receive loop's state: the `assemblies` map and the arrays of its FileAssembly objects. */
  class ServerHandler {
    var assemblies: map<int64, FileAssembly>
    ghost var Repr: set<object>

    /** Every entry's arrays belong to Repr. */
    ghost predicate Framed()
      reads this, Repr
    {
      && this in Repr
      && forall id :: id in assemblies ==> assemblies[id].parts in Repr && assemblies[id].received in Repr
    }

    /** The value of every entry. */
    ghost function Assemblies(): map<int64, Assembly>
      reads this, Repr
      requires Framed()
    {
      map id | id in assemblies :: assemblies[id].State()
    }

    /** Entries own distinct arrays, and each is keyed by its fileId and consistent. */
    ghost predicate Wellformed()
      reads this, Repr
    {
      && Framed()
      && (forall i, j :: i in assemblies && j in assemblies && i != j ==>
            assemblies[i].parts != assemblies[j].parts && assemblies[i].received != assemblies[j].received)
      && Keyed(Assemblies())
    }

    ghost predicate Valid()
      reads this, Repr
    {
      Wellformed() && TableInv(Assemblies())
    }

    constructor ()
      ensures Valid() && Assemblies() == map[] && fresh(Repr)
    {
      assemblies := map[];
      Repr := {this};
    }

    /** assemblies.put(id, fa) for a new entry. */
    method Add(id: int64, fa: FileAssembly)
      requires Wellformed() && id !in assemblies && fa.parts !in Repr && fa.received !in Repr
      requires fa.Valid() && fa.fileId == id && FileNames.SafeName(fa.filename)
      modifies this
      ensures Wellformed() && Repr == old(Repr) + {fa.parts, fa.received}
      ensures assemblies == old(assemblies)[id := fa]
      ensures Assemblies() == old(Assemblies())[id := fa.State()]
    {
      ghost var after := old(Assemblies())[id := fa.State()];
      KeyedUpdate(old(Assemblies()), id, fa.State());
      assemblies := assemblies[id := fa];
      Repr := Repr + {fa.parts, fa.received};
      assert Assemblies() == after by {
        forall k | k in assemblies
          ensures assemblies[k].State() == after[k]
        {
        }
      }
    }

    /** computeIfAbsent: the file's entry, created from this packet when there is none. */
    method EntryFor(pkt: FilePacket) returns (fa: FileAssembly)
      requires Wellformed()
      requires pkt.fileId in assemblies || pkt.totalChunks >= 0
      modifies this
      ensures Wellformed() && fresh(Repr - old(Repr))
      ensures pkt.fileId in assemblies && fa == assemblies[pkt.fileId]
      ensures Assemblies() ==
        if pkt.fileId in old(assemblies) then old(Assemblies())
        else old(Assemblies())[pkt.fileId := NewAssembly(pkt.fileId, pkt.name, pkt.totalChunks)]
    {
      var id := pkt.fileId;
      if id !in assemblies {
        var created := new FileAssembly(id, pkt.name, pkt.totalChunks);
        Add(id, created);
      }
      fa := assemblies[id];
    }

    /** fa.insertChunk on the entry of file id; no other entry changes. */
    method InsertInto(id: int64, idx: int32, data: Bytes)
      requires Wellformed() && id in assemblies
      modifies assemblies[id].parts, assemblies[id].received
      ensures Wellformed()
      ensures Assemblies() == old(Assemblies())[id := Insert(old(Assemblies())[id], idx, data).assembly]
    {
      var fa := assemblies[id];
      assert Assemblies()[id] == fa.State();
      var _ := fa.InsertChunk(idx, data);
      assert Assemblies() == old(Assemblies())[id := fa.State()];
    }

    /** assemblies.remove(id). */
    method Evict(id: int64)
      requires Wellformed()
      modifies this
      ensures Wellformed() && Repr == old(Repr)
      ensures Assemblies() == old(Assemblies()) - {id}
    {
      ghost var after := old(Assemblies()) - {id};
      assemblies := assemblies - {id};
      assert Assemblies() == after by {
        forall k | k in assemblies
          ensures assemblies[k].State() == after[k]
        {
        }
      }
    }

    /** computeIfAbsent followed by insertChunk on the entry it returns. */
    method Store(pkt: FilePacket) returns (fa: FileAssembly)
      requires Valid() && Admitted(Assemblies(), pkt)
      modifies Repr
      ensures Wellformed() && fresh(Repr - old(Repr))
      ensures pkt.fileId in assemblies && fa == assemblies[pkt.fileId]
      ensures fa.State() == Insert(EntryOf(old(Assemblies()), pkt), pkt.chunkIndex, pkt.data).assembly
      ensures Assemblies() == old(Assemblies())[pkt.fileId := fa.State()]
    {
      ghost var t0 := Assemblies();
      var id := pkt.fileId;
      fa := EntryFor(pkt);
      ghost var entry := EntryOf(t0, pkt);
      ghost var t1 := Assemblies();
      assert t1 == t0[id := entry];
      InsertInto(id, pkt.chunkIndex, pkt.data);
      ghost var done := Insert(entry, pkt.chunkIndex, pkt.data).assembly;
      assert Assemblies() == t1[id := done];
      MapUpdateTwice(t0, id, entry, done);
    }

    /** A complete file: assemble its bytes and evict its entry (lines 72-76). */
    method Finish(id: int64) returns (w: FileWrite)
      requires Wellformed() && id in assemblies && AllPresent(assemblies[id].parts[..])
      modifies this
      ensures Wellformed() && Repr == old(Repr)
      ensures Assemblies() == old(Assemblies()) - {id}
      ensures var a := old(Assemblies())[id];
              AllPresent(a.parts) && w == FileWrite(a.filename, Concat(Values(a.parts)))
    {
      var fa := assemblies[id];
      assert old(Assemblies())[id] == fa.State();
      var contents := fa.Assemble();
      w := FileWrite(fa.filename, contents);
      Evict(id);
    }

    /** Lines 67-77 for a parsed packet that gets past computeIfAbsent. */
    method AcceptPacket(pkt: FilePacket) returns (outcome: PacketOutcome)
      requires Valid() && Admitted(Assemblies(), pkt)
      modifies Repr
      ensures Valid() && fresh(Repr - old(Repr))
      ensures Accept(old(Assemblies()), pkt) == ServerResult(Assemblies(), outcome)
    {
      ghost var t0 := Assemblies();
      var id := pkt.fileId;
      var fa := Store(pkt);
      ghost var done := fa.State();
      AcceptCases(t0, pkt);
      var ack := EncodeAck(id, pkt.chunkIndex);
      var complete := fa.IsComplete();
      if complete {
        ghost var t1 := Assemblies();
        assert t1 == t0[id := done] && t1[id] == done;
        var w := Finish(id);
        MapRemoveUpdated(t0, id, done);
        assert Assemblies() == t0 - {id};
        outcome := Acked(ack, Some(w));
      } else {
        assert !Complete(done) && Assemblies() == t0[id := done];
        outcome := Acked(ack, None);
      }
    }

    /** Handles one received datagram d; returns the ACK sent and the file written, or why the loop ends. */
    method HandlePacket(d: Bytes) returns (outcome: PacketOutcome)
      requires Valid()
      modifies Repr
      ensures Valid() && fresh(Repr - old(Repr))
      ensures ServerStep(old(Assemblies()), d) == ServerResult(Assemblies(), outcome)
    {
      var parsed := Decode(ReceiveInto(d, BUFFER_SIZE));
      if parsed.Err? {
        return Stopped(Malformed(parsed.error));
      }
      var pkt := parsed.value;
      if pkt.fileId !in assemblies && pkt.totalChunks < 0 {
        return Stopped(NegativeChunkCount);
      }
      outcome := AcceptPacket(pkt);
    }
    /**
     * The `while (true)` loop of start() over the datagrams ds: handles them
     * in order until one ends the loop or ds runs out.
     */
    method Serve(ds: seq<Bytes>) returns (outcomes: seq<PacketOutcome>)
      requires Valid()
      modifies Repr
      ensures Valid() && fresh(Repr - old(Repr))
      ensures Run(old(Assemblies()), ds) == ServerRun(Assemblies(), outcomes)
    {
      ghost var t0 := Assemblies();
      outcomes := [];
      var i := 0;
      while i < |ds| && !Ended(outcomes)
        invariant i <= |ds|
        invariant Valid() && fresh(Repr - old(Repr))
        invariant Run(t0, ds[..i]) == ServerRun(Assemblies(), outcomes)
      {
        assert ds[..i + 1][..i] == ds[..i];
        var outcome := HandlePacket(ds[i]);
        outcomes := outcomes + [outcome];
        i := i + 1;
      }
      RunPrefix(t0, ds, i);
      assert i == |ds| ==> ds[..i] == ds;
    }
  }

  /** Accept in its two cases, named by the entry after the insert. */
  lemma AcceptCases(table: map<int64, Assembly>, pkt: FilePacket)
    requires TableInv(table) && Admitted(table, pkt)
    ensures var done := Insert(EntryOf(table, pkt), pkt.chunkIndex, pkt.data).assembly;
            var ack := EncodeAck(pkt.fileId, pkt.chunkIndex);
            && (Complete(done) ==> AllPresent(done.parts))
            && (Complete(done) ==>
                  Accept(table, pkt) ==
                  ServerResult(table - {pkt.fileId}, Acked(ack, Some(FileWrite(done.filename, Concat(Values(done.parts)))))))
            && (!Complete(done) ==> Accept(table, pkt) == ServerResult(table[pkt.fileId := done], Acked(ack, None)))
  {
    CompleteIffAllPresent(Insert(EntryOf(table, pkt), pkt.chunkIndex, pkt.data).assembly);
  }

  lemma KeyedUpdate(table: map<int64, Assembly>, id: int64, a: Assembly)
    requires Keyed(table) && a.fileId == id && Consistent(a) && FileNames.SafeName(a.filename)
    ensures Keyed(table[id := a])
  {
  }

}
