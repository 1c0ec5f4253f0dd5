/** How a file is cut into fragments, and how fragments are put back together.

    main.c computes a fragment's range in four places: at placement, at fan-out and in the two
    reassembly branches. Here the arithmetic is stated once; the ranges are shown to tile the file,
    so that copying every fragment to its offset rebuilds the file in any arrival order. */
module Split {
  import opened Types

  /** The number of fragments: small files are not split. */
  function FragmentCount(size: nat, netSize: nat): nat {
    if size <= netSize || size <= MINIMAL_SIZE_FOR_SPLIT then 1 else netSize
  }

  /** Size of the fragment with zero-based position i; the last one takes the remainder. */
  function FragmentSize(size: nat, count: nat, i: nat): nat
    requires count > 0
  {
    if i + 1 == count then size / count + size % count else size / count
  }

  /** The sizes of all fragments, in order. */
  function FragmentSizes(size: nat, count: nat): (sizes: seq<nat>)
    requires count > 0
    ensures |sizes| == count
  {
    seq(count, i requires 0 <= i < count => FragmentSize(size, count, i))
  }

  /** Offset of the fragment with one-based id f. */
  function FragmentOffset(size: nat, count: nat, f: nat): nat
    requires count > 0 && f >= 1
  {
    size / count * (f - 1)
  }

  /** Consecutive ranges meet: the first starts at 0, each next one where the previous one ends, and
      the last ends at the end of the file. */
  lemma RangesTile(size: nat, count: nat, f: nat)
    requires 1 <= f <= count
    ensures FragmentOffset(size, count, 1) == 0
    ensures f < count ==>
              FragmentOffset(size, count, f) + FragmentSize(size, count, f - 1) == FragmentOffset(size, count, f + 1)
    ensures f == count ==> FragmentOffset(size, count, f) + FragmentSize(size, count, f - 1) == size
    ensures FragmentOffset(size, count, f) + FragmentSize(size, count, f - 1) <= size
  {
    var q := size / count;
    assert size == q * count + size % count;
    assert q * f == q * (f - 1) + q;
    MulMonotone(q, f, count);
  }

  /** A file that is split has no empty fragment. */
  lemma SplitFragmentsNonEmpty(size: nat, netSize: nat, f: nat)
    requires netSize >= 1 && 1 <= f <= FragmentCount(size, netSize) && size > 0
    ensures FragmentSize(size, FragmentCount(size, netSize), f - 1) > 0
  {
    var count := FragmentCount(size, netSize);
    assert size == size / count * count + size % count;
    assert size % count < count;
    assert size >= count;
  }

  predicate InRange(size: nat, count: nat, f: nat, p: nat)
    requires 1 <= f <= count
  {
    FragmentOffset(size, count, f) <= p < FragmentOffset(size, count, f) + FragmentSize(size, count, f - 1)
  }

  /** End of the range of fragment f. */
  function FragmentEnd(size: nat, count: nat, f: nat): nat
    requires 1 <= f <= count
  {
    FragmentOffset(size, count, f) + FragmentSize(size, count, f - 1)
  }

  /** Later ranges start after earlier ones end. */
  lemma {:induction false} RangesAscend(size: nat, count: nat, f: nat, g: nat)
    requires 1 <= f < g <= count
    ensures FragmentEnd(size, count, f) <= FragmentOffset(size, count, g)
  {
    RangesTile(size, count, g - 1);
    if f < g - 1 {
      RangesAscend(size, count, f, g - 1);
    }
  }

  /** The fragment a byte position before the end of range f belongs to. */
  function OwnerUpTo(size: nat, count: nat, p: nat, f: nat): (o: nat)
    requires 1 <= f <= count && p < FragmentEnd(size, count, f)
    ensures 1 <= o <= f && InRange(size, count, o, p)
  {
    if FragmentOffset(size, count, f) <= p then f
    else
      RangesTile(size, count, 1);
      RangesTile(size, count, f - 1);
      OwnerUpTo(size, count, p, f - 1)
  }

  /** Every byte of the file lies in exactly one fragment: the ranges are disjoint and cover the file. */
  lemma EveryByteInOneFragment(size: nat, count: nat, p: nat) returns (owner: nat)
    requires count > 0 && p < size
    ensures 1 <= owner <= count && InRange(size, count, owner, p)
    ensures forall f: nat :: 1 <= f <= count && InRange(size, count, f, p) ==> f == owner
  {
    RangesTile(size, count, count);
    owner := OwnerUpTo(size, count, p, count);
    forall f: nat | 1 <= f <= count && InRange(size, count, f, p)
      ensures f == owner
    {
      if f < owner {
        RangesAscend(size, count, f, owner);
      } else if owner < f {
        RangesAscend(size, count, owner, f);
      }
    }
  }

  /** The bytes of fragment f. */
  function Fragment(data: seq<byte>, count: nat, f: nat): (piece: seq<byte>)
    requires 1 <= f <= count
    ensures |piece| == FragmentSize(|data|, count, f - 1)
  {
    RangesTile(|data|, count, f);
    var offset := FragmentOffset(|data|, count, f);
    data[offset..offset + FragmentSize(|data|, count, f - 1)]
  }

  /** All fragments, in order; fragment id f is at position f - 1. */
  function Fragments(data: seq<byte>, count: nat): (pieces: seq<seq<byte>>)
    requires count > 0
    ensures |pieces| == count
    ensures forall f :: 1 <= f <= count ==> pieces[f - 1] == Fragment(data, count, f)
  {
    seq(count, i requires 0 <= i < count => Fragment(data, count, i + 1))
  }

  function Sizes(pieces: seq<seq<byte>>): (sizes: seq<nat>)
    ensures |sizes| == |pieces| && forall i :: 0 <= i < |pieces| ==> sizes[i] == |pieces[i]|
  {
    seq(|pieces|, i requires 0 <= i < |pieces| => |pieces[i]|)
  }

  /** The sizes written into a table are the sizes of the pieces cut. */
  lemma SizesOfFragments(data: seq<byte>, count: nat)
    requires count > 0
    ensures Sizes(Fragments(data, count)) == FragmentSizes(|data|, count)
  {
    var pieces := Fragments(data, count);
    forall i: nat | i < count
      ensures |pieces[i]| == FragmentSizes(|data|, count)[i]
    {
      assert pieces[i + 1 - 1] == Fragment(data, count, i + 1);
    }
  }

  // ---------------------------------------------------------------- reassembly

  /** One memcpy into the requester's buffer. */
  datatype Write = Write(offset: nat, data: seq<byte>)

  predicate Fits(w: Write, size: nat) {
    w.offset + |w.data| <= size
  }

  function ApplyWrite(buffer: seq<byte>, w: Write): (r: seq<byte>)
    requires Fits(w, |buffer|)
    ensures |r| == |buffer|
  {
    buffer[..w.offset] + w.data + buffer[w.offset + |w.data|..]
  }

  /** The buffer after all writes, in order. */
  function ApplyAll(buffer: seq<byte>, writes: seq<Write>): (r: seq<byte>)
    requires forall k :: 0 <= k < |writes| ==> Fits(writes[k], |buffer|)
    ensures |r| == |buffer|
    decreases |writes|
  {
    if writes == [] then buffer
    else ApplyAll(ApplyWrite(buffer, writes[0]), writes[1..])
  }

  /** The write a delivered fragment causes. */
  function FragmentWrite(data: seq<byte>, count: nat, f: nat): (w: Write)
    requires 1 <= f <= count
    ensures Fits(w, |data|)
  {
    RangesTile(|data|, count, f);
    Write(FragmentOffset(|data|, count, f), Fragment(data, count, f))
  }

  predicate Genuine(w: Write, data: seq<byte>) {
    Fits(w, |data|) && w.data == data[w.offset..w.offset + |w.data|]
  }

  predicate Covers(w: Write, p: nat) {
    w.offset <= p < w.offset + |w.data|
  }

  /** Genuine writes only ever make more of the buffer right. */
  lemma {:induction false} GenuineWritesAgree(buffer: seq<byte>, writes: seq<Write>, data: seq<byte>, p: nat)
    requires |buffer| == |data| && p < |data|
    requires forall k :: 0 <= k < |writes| ==> Genuine(writes[k], data) && Fits(writes[k], |buffer|)
    requires buffer[p] == data[p] || exists k :: 0 <= k < |writes| && Covers(writes[k], p)
    ensures ApplyAll(buffer, writes)[p] == data[p]
    decreases |writes|
  {
    if writes != [] {
      var next := ApplyWrite(buffer, writes[0]);
      assert Genuine(writes[0], data);
      if Covers(writes[0], p) {
        assert next[p] == writes[0].data[p - writes[0].offset];
      } else {
        assert next[p] == buffer[p];
        if buffer[p] != data[p] {
          var k :| 0 <= k < |writes| && Covers(writes[k], p);
          assert Covers(writes[1..][k - 1], p);
        }
      }
      GenuineWritesAgree(next, writes[1..], data, p);
    }
  }

  lemma ByteCovered(data: seq<byte>, count: nat, arrivals: seq<nat>, writes: seq<Write>, p: nat)
    requires count > 0 && p < |data| && |writes| == |arrivals|
    requires forall k :: 0 <= k < |arrivals| ==> 1 <= arrivals[k] <= count
    requires forall k :: 0 <= k < |arrivals| ==> writes[k] == FragmentWrite(data, count, arrivals[k])
    requires forall f: nat :: 1 <= f <= count ==> f in arrivals
    ensures exists k :: 0 <= k < |writes| && Covers(writes[k], p)
  {
    var f := EveryByteInOneFragment(|data|, count, p);
    assert f in arrivals;
    var k :| 0 <= k < |arrivals| && arrivals[k] == f;
    assert Covers(writes[k], p);
  }

  /** Whatever the buffer held before and in whatever order the fragments arrive, even more than
      once, it ends up equal to the file as soon as every fragment id has been delivered. */
  lemma ReassemblyInAnyOrder(buffer: seq<byte>, data: seq<byte>, count: nat, arrivals: seq<nat>)
    requires |buffer| == |data| && count > 0
    requires forall k :: 0 <= k < |arrivals| ==> 1 <= arrivals[k] <= count
    requires forall f: nat :: 1 <= f <= count ==> f in arrivals
    ensures var writes := seq(|arrivals|, k requires 0 <= k < |arrivals| => FragmentWrite(data, count, arrivals[k]));
            ApplyAll(buffer, writes) == data
  {
    var writes := seq(|arrivals|, k requires 0 <= k < |arrivals| => FragmentWrite(data, count, arrivals[k]));
    forall k | 0 <= k < |writes|
      ensures Genuine(writes[k], data)
    {
      assert writes[k] == FragmentWrite(data, count, arrivals[k]);
    }
    forall p: nat | p < |data|
      ensures ApplyAll(buffer, writes)[p] == data[p]
    {
      ByteCovered(data, count, arrivals, writes, p);
      GenuineWritesAgree(buffer, writes, data, p);
    }
  }

  /** The loop of WAIT_REQUEST_FRAGMENTS: copy each delivery into the buffer, in place, as it arrives. */
  method CopyDeliveries(buffer: array<byte>, writes: seq<Write>)
    requires forall k :: 0 <= k < |writes| ==> Fits(writes[k], buffer.Length)
    modifies buffer
    ensures buffer[..] == ApplyAll(old(buffer[..]), writes)
  {
    for i := 0 to |writes|
      invariant ApplyAll(buffer[..], writes[i..]) == ApplyAll(old(buffer[..]), writes)
    {
      assert writes[i..][1..] == writes[i + 1..];
      CopyInto(buffer, writes[i].offset, writes[i].data);
    }
    assert writes[|writes|..] == [];
  }
}
