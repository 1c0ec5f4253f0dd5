/** Bucketed byte transport: the sender's bucket loop, the fixed-count receivers, the relay through a
    non-index node, and the client's chunk loop and read loop.

    A connection delivers the sender's writes in order; an empty write delivers nothing. A node's
    receiver reads one whole bucket at a time and awaits a number of reads it computes from the size;
    a receiver that awaits more reads than it will ever get blocks forever, which is `None` here. */
module Transport {
  import opened Types

  function Min(a: nat, b: nat): nat {
    if a < b then a else b
  }

  function Concat(parts: seq<seq<byte>>): seq<byte> {
    if parts == [] then [] else Concat(parts[..|parts| - 1]) + parts[|parts| - 1]
  }

  /** The number of buckets sent and awaited by the nodes. */
  function BucketCount(size: nat): nat {
    size / BUCKET_SIZE + 1
  }

  /** Bucket i; empty when it starts at or past the end of the buffer. */
  function Bucket(data: seq<byte>, i: nat): seq<byte>
    requires i < BucketCount(|data|)
  {
    data[4096 * i..Min(4096 * i + 4096, |data|)]
  }

  function Buckets(data: seq<byte>): (parts: seq<seq<byte>>)
    ensures |parts| == BucketCount(|data|)
  {
    seq(BucketCount(|data|), i requires 0 <= i < BucketCount(|data|) => Bucket(data, i))
  }

  /** The non-empty parts, in order: what actually travels. */
  function NonEmpty(parts: seq<seq<byte>>): seq<seq<byte>> {
    if parts == [] then []
    else
      var last := parts[|parts| - 1];
      NonEmpty(parts[..|parts| - 1]) + if last == [] then [] else [last]
  }

  /** A fixed-count receiver: blocks unless it gets as many reads as it awaits. */
  function Receive(size: nat, packets: seq<seq<byte>>): Option<seq<byte>> {
    if |packets| < BucketCount(size) then None else Some(Concat(packets[..BucketCount(size)]))
  }

  /** Sending a buffer from one node to another. */
  function Transfer(data: seq<byte>): Option<seq<byte>> {
    Receive(|data|, NonEmpty(Buckets(data)))
  }

  /** What a transfer between nodes amounts to; see TransferCompletes and UploadCompletes. */
  function Delivered(data: seq<byte>): Option<seq<byte>> {
    if |data| % BUCKET_SIZE != 0 then Some(data) else None
  }

  // ---------------------------------------------------------------- buckets

  lemma {:induction false} ConcatBuckets(data: seq<byte>, k: nat)
    requires k <= BucketCount(|data|)
    ensures Concat(Buckets(data)[..k]) == data[..Min(4096 * k, |data|)]
  {
    if k > 0 {
      ConcatBuckets(data, k - 1);
      assert Buckets(data)[..k][..k - 1] == Buckets(data)[..k - 1];
    }
  }

  /** Only the last bucket can be empty, and it is exactly when the size is a multiple of the bucket size. */
  lemma BucketEmpty(data: seq<byte>, i: nat)
    requires i < BucketCount(|data|)
    ensures Bucket(data, i) == [] <==> i == BucketCount(|data|) - 1 && |data| % 4096 == 0
  {
  }

  lemma NonEmptyAppend(parts: seq<seq<byte>>, last: seq<byte>)
    ensures NonEmpty(parts + [last]) == if last == [] then NonEmpty(parts) else NonEmpty(parts) + [last]
  {
    assert (parts + [last])[..|parts + [last]| - 1] == parts;
    assert NonEmpty(parts) + [] == NonEmpty(parts);
  }

  lemma {:induction false} NothingDropped(parts: seq<seq<byte>>)
    requires forall i :: 0 <= i < |parts| ==> parts[i] != []
    ensures NonEmpty(parts) == parts
  {
    if parts != [] {
      var front, last := parts[..|parts| - 1], parts[|parts| - 1];
      NothingDropped(front);
      NonEmptyAppend(front, last);
      assert parts == front + [last];
    }
  }

  lemma NonEmptyBuckets(data: seq<byte>)
    ensures var all, n := Buckets(data), BucketCount(|data|);
            NonEmpty(all) == if |data| % 4096 == 0 then all[..n - 1] else all
  {
    var all, n := Buckets(data), BucketCount(|data|);
    forall i: nat | i < n
      ensures all[i] == [] <==> i == n - 1 && |data| % 4096 == 0
    {
      BucketEmpty(data, i);
    }
    if |data| % 4096 == 0 {
      NothingDropped(all[..n - 1]);
      NonEmptyAppend(all[..n - 1], all[n - 1]);
      assert all == all[..n - 1] + [all[n - 1]];
    } else {
      NothingDropped(all);
    }
  }

  /** The buckets sent concatenate to the buffer, for every size. */
  lemma BucketsRebuild(data: seq<byte>)
    ensures Concat(Buckets(data)) == data
    ensures Concat(NonEmpty(Buckets(data))) == data
  {
    var n := BucketCount(|data|);
    ConcatBuckets(data, n);
    NonEmptyBuckets(data);
    assert Buckets(data)[..n] == Buckets(data);
    if |data| % 4096 == 0 {
      ConcatBuckets(data, n - 1);
    }
  }

  /** A transfer between nodes completes exactly when the size is not a multiple of the bucket size,
      and then it delivers the buffer unchanged. Otherwise the receiver awaits one read too many. */
  lemma TransferCompletes(data: seq<byte>)
    ensures Transfer(data) == Delivered(data)
  {
    var n := BucketCount(|data|);
    NonEmptyBuckets(data);
    BucketsRebuild(data);
    assert Buckets(data)[..n] == Buckets(data);
  }

  /** server_send_large_buffer_to. */
  method SendLargeBuffer(data: seq<byte>) returns (sent: seq<seq<byte>>)
    ensures sent == Buckets(data)
    ensures Concat(sent) == data
    ensures |sent| == |data| / 4096 + 1 && |sent[|sent| - 1]| == |data| % 4096
    ensures forall i :: 0 <= i < |sent| - 1 ==> |sent[i]| == 4096
  {
    var count := |data| / BUCKET_SIZE + 1;
    sent := [];
    var current := 0;
    for i := 0 to count
      invariant current == Min(4096 * i, |data|)
      invariant sent == Buckets(data)[..i]
    {
      var start := i * BUCKET_SIZE;
      var end := start + BUCKET_SIZE;
      if end > |data| {
        end := |data|;
      }
      sent := sent + [data[current..current + (end - start)]];
      current := current + (end - start);
    }
    BucketsRebuild(data);
  }

  /** server_wait_large_buffer_from, and the loop of SERVER_WAITING_RAW_PACKETS. */
  method WaitLargeBuffer(size: nat, packets: seq<seq<byte>>, buffer: array<byte>) returns (completed: bool)
    requires |Concat(packets)| <= buffer.Length == size
    modifies buffer
    ensures completed <==> |packets| >= size / 4096 + 1
    ensures completed ==> Concat(packets[..size / 4096 + 1]) <= buffer[..]
    ensures completed <==> Receive(size, packets).Some?
    ensures completed ==> Receive(size, packets).value <= buffer[..]
  {
    var populated := 0;
    for i := 0 to size / BUCKET_SIZE + 1
      invariant i <= |packets|
      invariant populated == |Concat(packets[..i])| <= buffer.Length
      invariant buffer[..populated] == Concat(packets[..i])
    {
      if i == |packets| {
        return false;
      }
      assert packets[..i + 1][..i] == packets[..i];
      ConcatPrefix(packets, i + 1);
      CopyInto(buffer, populated, packets[i]);
      assert buffer[..populated + |packets[i]|] == Concat(packets[..i]) + packets[i];
      populated := populated + |packets[i]|;
    }
    completed := true;
  }

  lemma {:induction false} ConcatPrefix(parts: seq<seq<byte>>, k: nat)
    requires k <= |parts|
    ensures |Concat(parts[..k])| <= |Concat(parts)|
    decreases |parts|
  {
    if k < |parts| {
      ConcatPrefix(parts[..|parts| - 1], k);
      assert parts[..|parts| - 1][..k] == parts[..k];
    } else {
      assert parts[..k] == parts;
    }
  }

  // ---------------------------------------------------------------- the client's side

  /** ceil(size / bucket). */
  function ChunkCount(size: nat): nat {
    (size + BUCKET_SIZE - 1) / BUCKET_SIZE
  }

  /** HandleFileTransmission: the client's chunk loop. It sends exactly the non-empty buckets, so it
      concatenates to the file too, but sends one write fewer than the node awaits when the size is a
      multiple of the bucket size. */
  method SendChunks(data: seq<byte>) returns (sent: seq<seq<byte>>)
    ensures sent == NonEmpty(Buckets(data))
    ensures Concat(sent) == data
    ensures |sent| == |data| / 4096 + 1 <==> |data| % 4096 != 0
  {
    sent := [];
    for i := 0 to ChunkCount(|data|)
      invariant sent == Buckets(data)[..i]
    {
      var start := i * BUCKET_SIZE;
      var end := start + BUCKET_SIZE;
      if end > |data| {
        end := |data|;
      }
      sent := sent + [data[start..end]];
    }
    var n := BucketCount(|data|);
    NonEmptyBuckets(data);
    BucketsRebuild(data);
    assert Buckets(data)[..n] == Buckets(data);
  }

  /** A non-index node that receives a new file copies every read it gets and passes it on to the index;
      `forwarded` is what the index gets to read. */
  method Relay(size: nat, packets: seq<seq<byte>>) returns (completed: bool, forwarded: seq<seq<byte>>)
    ensures completed <==> |packets| >= size / 4096 + 1
    ensures forwarded == if completed then packets[..size / 4096 + 1] else packets
  {
    forwarded := [];
    for i := 0 to size / BUCKET_SIZE + 1
      invariant i <= |packets| && forwarded == packets[..i]
    {
      if i == |packets| {
        return false, forwarded;
      }
      forwarded := forwarded + [packets[i]];
    }
    completed := true;
  }

  /** What the index receives when a client uploads through a relay. */
  function Upload(data: seq<byte>): Option<seq<byte>> {
    var packets := NonEmpty(Buckets(data));
    var forwarded := if |packets| >= BucketCount(|data|) then packets[..BucketCount(|data|)] else packets;
    Receive(|data|, forwarded)
  }

  lemma UploadCompletes(data: seq<byte>)
    ensures Upload(data) == Delivered(data)
  {
    var n := BucketCount(|data|);
    var packets := NonEmpty(Buckets(data));
    NonEmptyBuckets(data);
    assert Buckets(data)[..n] == Buckets(data);
    BucketsRebuild(data);
    if |data| % 4096 != 0 {
      assert packets[..n] == packets && packets[..n][..n] == packets;
    }
  }

  /** readLargeBuffer: the client reads until the buffer is full. `cut(i)` is how many bytes the i-th read
      would return; a read returns at least one byte and never more than fit. However the stream is cut,
      the client gets its first `size` bytes, or an error when the stream ends early. */
  method ReadLargeBuffer(stream: seq<byte>, size: nat, cut: nat -> nat) returns (result: Option<seq<byte>>)
    ensures result == if |stream| >= size then Some(stream[..size]) else None
  {
    var buffer := new byte[size];
    var populated, i := 0, 0;
    while populated < size
      invariant populated <= size && populated <= |stream|
      invariant buffer[..populated] == stream[..populated]
    {
      if populated == |stream| {
        return None;
      }
      var limit := Min(size - populated, |stream| - populated);
      var n := if cut(i) == 0 then 1 else Min(cut(i), limit);
      CopyInto(buffer, populated, stream[populated..populated + n]);
      assert buffer[..populated + n] == stream[..populated] + stream[populated..populated + n];
      populated := populated + n;
      i := i + 1;
    }
    assert buffer[..] == buffer[..populated];
    result := Some(buffer[..]);
  }

  /** The end of a get: the node sends the buckets of the assembled file and the client reads them back; for every
      size, multiples of the bucket size included, and however the stream is cut. */
  method DeliverToClient(data: seq<byte>, cut: nat -> nat) returns (result: Option<seq<byte>>)
    ensures result == Some(data)
  {
    var sent := SendLargeBuffer(data);
    assert data[..|data|] == data;
    result := ReadLargeBuffer(Concat(sent), |data|, cut);
  }
}
