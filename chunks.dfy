/**
 * Slot arrays of received chunks (Java's byte[][] with null for a missing
 * chunk) and their concatenation in index order, shared by the file receiver
 * and the frame receiver.
 */
module Chunks {
  import opened Wrappers
  import opened ByteOrder

  /** parts[0] + parts[1] + ... + parts[|parts| - 1]. */
  function Concat(parts: seq<Bytes>): Bytes
  {
    if parts == [] then [] else Concat(parts[..|parts| - 1]) + parts[|parts| - 1]
  }

  /** The sum of the lengths of the parts. */
  function TotalLength(parts: seq<Bytes>): nat
  {
    if parts == [] then 0 else TotalLength(parts[..|parts| - 1]) + |parts[|parts| - 1]|
  }

  lemma {:induction false} ConcatLength(parts: seq<Bytes>)
    ensures |Concat(parts)| == TotalLength(parts)
  {
    if parts != [] {
      ConcatLength(parts[..|parts| - 1]);
    }
  }

  /** Concatenation distributes over appending part lists. */
  lemma {:induction false} ConcatAppend(a: seq<Bytes>, b: seq<Bytes>)
    ensures Concat(a + b) == Concat(a) + Concat(b)
  {
    if b == [] {
      assert a + b == a;
    } else {
      var n := |b|;
      ConcatAppend(a, b[..n - 1]);
      assert (a + b)[..|a + b| - 1] == a + b[..n - 1];
    }
  }

  /** Part k sits in the concatenation right after parts 0..k-1 and right before parts k+1.. */
  lemma ConcatInOrder(parts: seq<Bytes>, k: nat)
    requires k < |parts|
    ensures Concat(parts) == Concat(parts[..k]) + parts[k] + Concat(parts[k + 1..])
  {
    var before, one, after := parts[..k], [parts[k]], parts[k + 1..];
    assert parts == before + one + after;
    ConcatAppend(before + one, after);
    ConcatAppend(before, one);
    assert one[..0] == [];
  }

  /** Where part k starts in the concatenation: after the lengths of parts 0..k-1. */
  lemma ConcatOffsets(parts: seq<Bytes>, k: nat)
    requires k < |parts|
    ensures TotalLength(parts[..k]) + |parts[k]| <= |Concat(parts)|
    ensures Concat(parts)[TotalLength(parts[..k])..TotalLength(parts[..k]) + |parts[k]|] == parts[k]
  {
    ConcatInOrder(parts, k);
    ConcatLength(parts[..k]);
  }

  /** A total length bounded part by part: n parts of at most m bytes hold at most n * m bytes. */
  lemma {:induction false} TotalLengthBound(parts: seq<Bytes>, m: nat)
    requires forall i :: 0 <= i < |parts| ==> |parts[i]| <= m
    ensures TotalLength(parts) <= |parts| * m
  {
    if parts != [] {
      var n := |parts|;
      TotalLengthBound(parts[..n - 1], m);
      assert (n - 1) * m + m == n * m;
    }
  }

  /** Every slot of the array holds a chunk (no Java null). */
  predicate AllPresent(slots: seq<Option<Bytes>>)
  {
    forall i :: 0 <= i < |slots| ==> slots[i].Some?
  }

  /** The chunks held by a slot array with no empty slot. */
  function Values(slots: seq<Option<Bytes>>): (parts: seq<Bytes>)
    requires AllPresent(slots)
  {
    seq(|slots|, i requires 0 <= i < |slots| => slots[i].value)
  }

  /** The number of filled slots. */
  function CountPresent(slots: seq<Option<Bytes>>): nat
  {
    if slots == [] then 0
    else CountPresent(slots[..|slots| - 1]) + (if slots[|slots| - 1].Some? then 1 else 0)
  }

  /** At most every slot is filled, and all of them exactly when the count reaches the length. */
  lemma {:induction false} CountPresentFull(slots: seq<Option<Bytes>>)
    ensures CountPresent(slots) <= |slots|
    ensures CountPresent(slots) == |slots| <==> AllPresent(slots)
  {
    if slots != [] {
      var n := |slots|;
      CountPresentFull(slots[..n - 1]);
      assert AllPresent(slots) <==> AllPresent(slots[..n - 1]) && slots[n - 1].Some?;
    }
  }

  /** Filling an empty slot raises the count by exactly one. */
  lemma {:induction false} CountPresentFill(slots: seq<Option<Bytes>>, k: nat, x: Bytes)
    requires k < |slots| && slots[k].None?
    ensures CountPresent(slots[k := Some(x)]) == CountPresent(slots) + 1
  {
    var n := |slots|;
    var filled := slots[k := Some(x)];
    assert filled[..n - 1] == if k == n - 1 then slots[..n - 1] else slots[..n - 1][k := Some(x)];
    if k < n - 1 {
      CountPresentFill(slots[..n - 1], k, x);
    }
  }

  /** A slot array that was just allocated has no filled slot. */
  lemma {:induction false} CountPresentNone(n: nat)
    ensures CountPresent(seq(n, _ => None)) == 0
  {
    if n > 0 {
      CountPresentNone(n - 1);
      var empty: seq<Option<Bytes>> := seq(n, _ => None);
      assert empty[..n - 1] == seq(n - 1, _ => None);
    }
  }

  /** Every part index 0..n-1 occurs in `arrived`. */
  predicate Covers(n: int, arrived: seq<int>)
  {
    forall i :: 0 <= i < n ==> i in arrived
  }

  /** An index missing from a prefix of the arrivals is missing from every shorter prefix. */
  lemma CoversShorter(n: int, order: seq<int>, j: nat)
    requires 0 < j <= |order| && !Covers(n, order[..j])
    ensures !Covers(n, order[..j - 1])
  {
    var i :| 0 <= i < n && i !in order[..j];
    assert order[..j] == order[..j - 1] + [order[j - 1]];
  }

  /** The slot array of n parts once the parts with the indices in `arrived` are stored. */
  function Slots(n: nat, chunks: seq<Bytes>, arrived: seq<int>): (parts: seq<Option<Bytes>>)
    requires |chunks| == n
    ensures |parts| == n
    ensures forall i :: 0 <= i < n ==> (parts[i].Some? <==> i in arrived)
    ensures forall i :: 0 <= i < n && i in arrived ==> parts[i] == Some(chunks[i])
  {
    seq(n, i requires 0 <= i < n => if i in arrived then Some(chunks[i]) else None)
  }

  /** With every index arrived, the slots hold exactly the parts, in index order. */
  lemma FullSlots(n: nat, chunks: seq<Bytes>, arrived: seq<int>)
    requires |chunks| == n && Covers(n, arrived)
    ensures AllPresent(Slots(n, chunks, arrived)) && Values(Slots(n, chunks, arrived)) == chunks
  {
  }

  /** Any arrival order that covers every index of a non-empty set of parts has a first covering step. */
  lemma {:induction false} FirstCoveringStep(n: int, order: seq<int>) returns (p: nat)
    requires 0 < n && Covers(n, order)
    ensures p < |order| && !Covers(n, order[..p]) && Covers(n, order[..p + 1])
    decreases |order|
  {
    assert 0 in order;
    var init := order[..|order| - 1];
    if Covers(n, init) {
      p := FirstCoveringStep(n, init);
      assert init[..p] == order[..p] && init[..p + 1] == order[..p + 1];
    } else {
      p := |order| - 1;
      assert order[..p + 1] == order;
    }
  }
}
