/**
 * ServerHandler.FileAssembly (src/main/java/server/ServerHandler.java:104-158):
 * the per-file reassembly buffer, a slot array `parts` (null = not yet received)
 * beside a BitSet `received`.
 *
 * `Assembly` is the buffer's value; the functions on it specify the class
 * `FileAssembly` below, whose methods update the two arrays in place.
 */
module FileReassembly {
  import opened Wrappers
  import opened ByteOrder
  import opened Chunks
  import FileNames

  datatype Assembly = Assembly(
    fileId: int64,
    filename: Bytes,
    totalChunks: int32,
    parts: seq<Option<Bytes>>,
    received: seq<bool>)

  /** The arrays have totalChunks slots, and bit i is set exactly when slot i holds a chunk. */
  predicate Consistent(a: Assembly)
  {
    && 0 <= a.totalChunks
    && |a.parts| == a.totalChunks
    && |a.received| == a.totalChunks
    && forall i :: 0 <= i < a.totalChunks ==> (a.received[i] <==> a.parts[i].Some?)
  }

  /** BitSet.cardinality: the number of set bits. */
  function Cardinality(bits: seq<bool>): nat
  {
    if bits == [] then 0 else Cardinality(bits[..|bits| - 1]) + (if bits[|bits| - 1] then 1 else 0)
  }

  /** At most every bit is set, and all of them exactly when the cardinality reaches the length. */
  lemma {:induction false} CardinalityFull(bits: seq<bool>)
    ensures Cardinality(bits) <= |bits|
    ensures Cardinality(bits) == |bits| <==> forall i :: 0 <= i < |bits| ==> bits[i]
  {
    if bits != [] {
      var n := |bits|;
      CardinalityFull(bits[..n - 1]);
      var init := bits[..n - 1];
      assert (forall i :: 0 <= i < n ==> bits[i])
        <==> (forall i :: 0 <= i < n - 1 ==> init[i]) && bits[n - 1];
    }
  }

  /** Setting a clear bit raises the cardinality by exactly one. */
  lemma {:induction false} CardinalitySet(bits: seq<bool>, k: nat)
    requires k < |bits| && !bits[k]
    ensures Cardinality(bits[k := true]) == Cardinality(bits) + 1
  {
    var n := |bits|;
    assert bits[k := true][..n - 1] == if k == n - 1 then bits[..n - 1] else bits[..n - 1][k := true];
    if k < n - 1 {
      CardinalitySet(bits[..n - 1], k);
    }
  }

  lemma {:induction false} CardinalityClear(n: nat)
    ensures Cardinality(seq(n, _ => false)) == 0
  {
    if n > 0 {
      CardinalityClear(n - 1);
      assert seq(n, _ => false)[..n - 1] == seq(n - 1, _ => false);
    }
  }

  /** A new buffer (lines 116-122): sanitised name, totalChunks empty slots, all bits clear. */
  function NewAssembly(fileId: int64, name: Bytes, totalChunks: int32): (a: Assembly)
    requires totalChunks >= 0
    ensures Consistent(a) && Cardinality(a.received) == 0
    ensures a.fileId == fileId && a.totalChunks == totalChunks
    ensures a.filename == FileNames.SanitizeFilename(name) && FileNames.SafeName(a.filename)
    ensures forall i :: 0 <= i < totalChunks ==> a.parts[i].None?
  {
    CardinalityClear(totalChunks);
    Assembly(fileId, FileNames.SanitizeFilename(name), totalChunks,
             seq(totalChunks, _ => None), seq(totalChunks, _ => false))
  }

  datatype Inserted = Inserted(assembly: Assembly, inserted: bool)

  /**
   * insertChunk (lines 126-136). An index outside [0, totalChunks) or an
   * occupied slot is refused and nothing changes, so a duplicate never
   * overwrites; otherwise the chunk fills its slot, its bit is set, and the
   * cardinality advances by one.
   */
  function Insert(a: Assembly, idx: int, data: Bytes): (r: Inserted)
    requires Consistent(a)
    ensures Consistent(r.assembly)
    ensures r.inserted <==> 0 <= idx < a.totalChunks && a.parts[idx].None?
    ensures !r.inserted ==> r.assembly == a
    ensures r.inserted ==> r.assembly == a.(parts := a.parts[idx := Some(data)], received := a.received[idx := true])
    ensures Cardinality(r.assembly.received) == Cardinality(a.received) + (if r.inserted then 1 else 0)
  {
    if idx < 0 || idx >= a.totalChunks then Inserted(a, false)
    else if a.parts[idx].None? then
      CardinalitySet(a.received, idx);
      Inserted(a.(parts := a.parts[idx := Some(data)], received := a.received[idx := true]), true)
    else Inserted(a, false)
  }

  /** isComplete (lines 138-140): the cardinality of `received` equals totalChunks. */
  predicate Complete(a: Assembly)
  {
    Cardinality(a.received) == a.totalChunks
  }

  /** A consistent buffer is complete exactly when every slot holds a chunk. */
  lemma CompleteIffAllPresent(a: Assembly)
    requires Consistent(a)
    ensures Complete(a) <==> AllPresent(a.parts)
  {
    CardinalityFull(a.received);
  }

  /** A second insert at the same index is refused and leaves the first one's result in place. */
  lemma InsertIdempotent(a: Assembly, idx: int, first: Bytes, again: Bytes)
    requires Consistent(a)
    ensures var r := Insert(a, idx, first);
            Insert(r.assembly, idx, again) == Inserted(r.assembly, false)
  {
  }

  /** The Java object, with the two arrays it updates in place. */
  class FileAssembly {
    const fileId: int64
    const filename: Bytes
    const totalChunks: int32
    const parts: array<Option<Bytes>>
    const received: array<bool>

    ghost function State(): Assembly
      reads parts, received
    {
      Assembly(fileId, filename, totalChunks, parts[..], received[..])
    }

    ghost predicate Valid()
      reads parts, received
    {
      Consistent(State())
    }

    constructor (fileId: int64, name: Bytes, totalChunks: int32)
      requires totalChunks >= 0
      ensures Valid() && State() == NewAssembly(fileId, name, totalChunks)
      ensures fresh(parts) && fresh(received)
    {
      this.fileId := fileId;
      this.filename := FileNames.SanitizeFilename(name);
      this.totalChunks := totalChunks;
      this.parts := new Option<Bytes>[totalChunks](_ => None);
      this.received := new bool[totalChunks](_ => false);
    }

    method InsertChunk(idx: int32, data: Bytes) returns (inserted: bool)
      requires Valid()
      modifies parts, received
      ensures Valid()
      ensures Inserted(State(), inserted) == Insert(old(State()), idx, data)
    {
      if idx < 0 || idx >= totalChunks {
        return false;
      }
      if parts[idx].None? {
        parts[idx] := Some(data);
        received[idx] := true;
        return true;
      } else {
        return false;
      }
    }

    method IsComplete() returns (complete: bool)
      requires Valid()
      ensures complete == Complete(State())
      ensures complete <==> AllPresent(parts[..])
    {
      CompleteIffAllPresent(State());
      complete := Cardinality(received[..]) == totalChunks;
    }

    /** assemble (lines 142-151): the chunks appended in index order 0..totalChunks-1. */
    method Assemble() returns (bytes: Bytes)
      requires Valid() && AllPresent(parts[..])
      ensures bytes == Concat(Values(parts[..]))
      ensures |bytes| == TotalLength(Values(parts[..]))
    {
      ghost var chunks := Values(parts[..]);
      bytes := [];
      for i := 0 to totalChunks
        invariant bytes == Concat(chunks[..i])
      {
        assert chunks[..i + 1][..i] == chunks[..i];
        bytes := bytes + parts[i].value;
      }
      assert chunks[..totalChunks] == chunks;
      ConcatLength(chunks);
    }
  }
}
