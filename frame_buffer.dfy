/**
 * ClientHandler.FrameBuffer (src/main/java/client/ClientHandler.java:17-29): a
 * frame's slot array `parts` (null = part not yet received) and the counter
 * `receivedParts`, with the per-packet store of lines 115-118 and the static
 * assembleFrame of lines 179-193.
 *
 * `FrameState` is the buffer's value; the functions on it specify the class
 * `FrameBuffer`, whose array and counter are updated in place.
 */
module FrameReassembly {
  import opened Wrappers
  import opened ByteOrder
  import opened Chunks

  /** Integer.MAX_VALUE: the largest length a Java array can have. */
  const INT_MAX: int := 0x7FFF_FFFF

  datatype FrameState = FrameState(totalParts: int, parts: seq<Option<Bytes>>, receivedParts: int)

  /** The array has totalParts slots and receivedParts is the number of filled slots. */
  predicate Counted(f: FrameState)
  {
    |f.parts| == f.totalParts && f.receivedParts == CountPresent(f.parts)
  }

  /** new FrameBuffer(totalParts): totalParts empty slots and a zero count. */
  function NewFrame(totalParts: uint16): (f: FrameState)
    ensures Counted(f) && f.totalParts == totalParts && f.receivedParts == 0
    ensures forall i :: 0 <= i < totalParts ==> f.parts[i].None?
  {
    CountPresentNone(totalParts);
    FrameState(totalParts, seq(totalParts, _ => None), 0)
  }

  /**
   * Lines 115-118. A part number outside the array has no guard and raises
   * ArrayIndexOutOfBoundsException (None). A filled slot is left as it is, so
   * a duplicate changes neither the slot nor the count; an empty slot takes
   * the payload and the count goes up by one, keeping it equal to the number
   * of filled slots.
   */
  function StorePart(f: FrameState, partNumber: int, payload: Bytes): (r: Option<FrameState>)
    requires Counted(f)
    ensures r.None? <==> !(0 <= partNumber < |f.parts|)
    ensures r.Some? ==> Counted(r.value) && r.value.totalParts == f.totalParts
    ensures r.Some? && f.parts[partNumber].Some? ==> r.value == f
    ensures r.Some? && f.parts[partNumber].None? ==>
              && r.value.parts == f.parts[partNumber := Some(payload)]
              && r.value.receivedParts == f.receivedParts + 1
  {
    if partNumber < 0 || partNumber >= |f.parts| then None
    else if f.parts[partNumber].None? then
      CountPresentFill(f.parts, partNumber, payload);
      Some(f.(parts := f.parts[partNumber := Some(payload)], receivedParts := f.receivedParts + 1))
    else Some(f)
  }

  /** The Java object: its slot array is written in place and its counter incremented. */
  class FrameBuffer {
    const totalParts: int
    const parts: array<Option<Bytes>>
    var receivedParts: int

    ghost function State(): FrameState
      reads this, parts
    {
      FrameState(totalParts, parts[..], receivedParts)
    }

    ghost predicate Valid()
      reads this, parts
    {
      Counted(State())
    }

    constructor (totalParts: uint16)
      ensures Valid() && State() == NewFrame(totalParts) && fresh(parts)
    {
      this.totalParts := totalParts;
      this.parts := new Option<Bytes>[totalParts](_ => None);
      this.receivedParts := 0;
      new;
      assert parts[..] == NewFrame(totalParts).parts;
    }

    /** Lines 115-118; false where Java throws ArrayIndexOutOfBoundsException, and then nothing has changed. */
    method Store(partNumber: int, payload: Bytes) returns (inRange: bool)
      requires Valid()
      modifies this, parts
      ensures Valid()
      ensures inRange <==> StorePart(old(State()), partNumber, payload).Some?
      ensures inRange ==> State() == StorePart(old(State()), partNumber, payload).value
      ensures !inRange ==> State() == old(State())
    {
      if partNumber < 0 || partNumber >= parts.Length {
        return false;
      }
      if parts[partNumber].None? {
        CountPresentFill(parts[..], partNumber, payload);
        parts[partNumber] := Some(payload);
        receivedParts := receivedParts + 1;
      }
      return true;
    }
  }

  /** System.arraycopy(src, 0, dest, destPos, src.length): only dest[destPos..destPos + |src|] changes. */
  method ArrayCopy(src: Bytes, dest: array<uint8>, destPos: nat)
    requires destPos + |src| <= dest.Length
    modifies dest
    ensures dest[..destPos] == old(dest[..destPos])
    ensures dest[destPos..destPos + |src|] == src
    ensures dest[destPos + |src|..] == old(dest[destPos + |src|..])
  {
    for j := 0 to |src|
      invariant dest[..destPos] == old(dest[..destPos])
      invariant dest[destPos..destPos + j] == src[..j]
      invariant dest[destPos + |src|..] == old(dest[destPos + |src|..])
    {
      dest[destPos + j] := src[j];
    }
  }

  /**
   * assembleFrame (lines 179-193): sum the part lengths, then copy the parts
   * one after another into an array of that size. A null part makes
   * `part.length` throw NullPointerException (None). Otherwise the image is
   * the parts concatenated in index order, part k placed at the sum of the
   * lengths of parts 0..k-1.
   */
  method AssembleFrame(fb: FrameBuffer) returns (image: Option<Bytes>)
    requires AllPresent(fb.parts[..]) ==> TotalLength(Values(fb.parts[..])) <= INT_MAX
    ensures image.None? <==> !AllPresent(fb.parts[..])
    ensures image.Some? ==> image.value == Concat(Values(fb.parts[..]))
    ensures image.Some? ==> |image.value| == TotalLength(Values(fb.parts[..]))
  {
    var parts := fb.parts;
    var totalSize := 0;
    for i := 0 to parts.Length
      invariant AllPresent(parts[..i])
      invariant totalSize == TotalLength(Values(parts[..i]))
    {
      if parts[i].None? {
        return None;
      }
      assert Values(parts[..i + 1])[..i] == Values(parts[..i]);
      totalSize := totalSize + |parts[i].value|;
    }
    assert parts[..parts.Length] == parts[..];
    ghost var chunks := Values(parts[..]);
    var fullImage := new uint8[totalSize];
    var offset := 0;
    for i := 0 to parts.Length
      invariant offset == TotalLength(chunks[..i])
      invariant offset <= totalSize == fullImage.Length
      invariant fullImage[..offset] == Concat(chunks[..i])
    {
      ConcatOffsets(chunks, i);
      ConcatLength(chunks);
      ArrayCopy(parts[i].value, fullImage, offset);
      assert chunks[..i + 1][..i] == chunks[..i];
      assert fullImage[..offset + |chunks[i]|] == fullImage[..offset] + fullImage[offset..offset + |chunks[i]|];
      offset := offset + |parts[i].value|;
    }
    assert chunks[..parts.Length] == chunks;
    ConcatLength(chunks);
    assert fullImage[..] == fullImage[..offset];
    return Some(fullImage[..]);
  }
}
