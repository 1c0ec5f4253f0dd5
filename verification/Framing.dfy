/** The client's packet format: a two-byte little-endian size prefix, an eight-byte sender, a type
    byte and the content, and the loop that reads a packet back from a segmented stream. */
module Framing {
  import opened Types

  datatype ClientPacket = ClientPacket(sender: nat, kind: byte, content: seq<byte>)

  /** Outcome of reading: a packet with its size field and the unread rest of the stream, a reported
      error, or an index past the end of a Go slice. */
  datatype ReadResult = Read(size: nat, packet: ClientPacket, rest: seq<byte>) | Error | Panic

  const U16: nat := 0x1_0000
  const U64: nat := 0x1_0000_0000_0000_0000

  /** n in k bytes, least significant first; higher bytes are dropped. */
  function LittleEndian(n: nat, k: nat): (bytes: seq<byte>)
    ensures |bytes| == k
  {
    if k == 0 then [] else [(n % 256) as byte] + LittleEndian(n / 256, k - 1)
  }

  function FromLittleEndian(bytes: seq<byte>): nat {
    if bytes == [] then 0 else bytes[0] as nat + 256 * FromLittleEndian(bytes[1..])
  }

  function Power256(k: nat): (p: nat)
    ensures p >= 1
  {
    if k == 0 then 1 else 256 * Power256(k - 1)
  }

  /** Decoding inverts encoding, modulo the width. */
  lemma {:induction false} LittleEndianRoundTrip(n: nat, k: nat)
    ensures FromLittleEndian(LittleEndian(n, k)) == n % Power256(k)
  {
    if k > 0 {
      LittleEndianRoundTrip(n / 256, k - 1);
      DivMod256(n, Power256(k - 1));
    }
  }

  lemma DivMod256(n: nat, p: nat)
    requires p >= 1
    ensures n % (256 * p) == n % 256 + 256 * (n / 256 % p)
  {
    var q, r := n / 256 / p, n / 256 % p;
    assert n / 256 == p * q + r;
    assert n == 256 * (p * q + r) + n % 256;
    var low := n % 256 + 256 * r;
    assert n == (256 * p) * q + low;
    assert 256 * r + 256 <= 256 * p;
    UniqueRemainder(n, 256 * p, q, low);
  }

  lemma UniqueRemainder(n: nat, m: nat, q: nat, r: nat)
    requires m >= 1 && n == m * q + r && r < m
    ensures n % m == r
  {
    var q' := n / m;
    assert n == m * q' + n % m;
    if q < q' {
      MulStep(m, q, q');
    } else if q' < q {
      MulStep(m, q', q);
    }
  }

  lemma MulStep(m: nat, a: nat, b: nat)
    requires a < b
    ensures m * a + m <= m * b
  {
    var e := b - a - 1;
    assert m * b == m * a + m + m * e;
  }

  /** CommunicationPacket.Serialize. The size prefix is written last and wraps at 16 bits. */
  function Serialize(p: ClientPacket): (bytes: seq<byte>)
    ensures |bytes| == 11 + |p.content|
  {
    LittleEndian((11 + |p.content|) % U16, 2) + LittleEndian(p.sender, 8) + [p.kind] + p.content
  }

  /** CommunicationPacket.Unserialize. The length test admits 9 and 10 bytes, on which the next lines panic. */
  function Unserialize(bytes: seq<byte>, rest: seq<byte>): ReadResult {
    if |bytes| < 9 then Error
    else if |bytes| < 11 then Panic
    else Read(FromLittleEndian(bytes[..2]),
              ClientPacket(FromLittleEndian(bytes[2..10]), bytes[10], bytes[11..]),
              rest)
  }

  /** The size in the first two bytes of a stream, as ReadPacket assembles it. */
  function SizePrefix(stream: seq<byte>): nat
    requires |stream| >= 2
  {
    stream[1] as nat * 256 + stream[0] as nat
  }

  /** What ReadPacket makes of its two-byte size buffer and the stream after it. */
  function ReadBody(prefix: seq<byte>, stream: seq<byte>): ReadResult
    requires |prefix| == 2
  {
    var size := SizePrefix(prefix);
    if size < 2 || |stream| < size - 2 then Error
    else Unserialize(prefix + stream[..size - 2], stream[size - 2..])
  }

  /** What ReadPacket returns on a stream. The first read is made only once: if it returns one byte instead of two,
      the high byte of the size stays 0 and the next byte is taken for the body. */
  function ReadSpec(stream: seq<byte>, whole: bool): ReadResult {
    if stream == [] then Error
    else if whole && |stream| >= 2 then ReadBody(stream[..2], stream[2..])
    else ReadBody([stream[0], 0], stream[1..])
  }

  /** ReadPacket. `whole` says whether the first read gets both bytes of the prefix; the body is cut arbitrarily. */
  method ReadPacket(stream: seq<byte>, whole: bool, cut: nat -> nat) returns (result: ReadResult)
    ensures result == ReadSpec(stream, whole)
  {
    if |stream| == 0 {
      return Error;
    }
    var buffer := [stream[0], 0];
    var first := 1;
    if whole && |stream| >= 2 {
      buffer, first := stream[..2], 2;
    }
    result := ReadRest(buffer, stream[first..], cut);
  }

  /** The loop that reads the rest of a packet. */
  method ReadRest(prefix: seq<byte>, stream: seq<byte>, cut: nat -> nat) returns (result: ReadResult)
    requires |prefix| == 2
    ensures result == ReadBody(prefix, stream)
  {
    var size := SizePrefix(prefix);
    if size < 2 {
      return Error;
    }
    var full := prefix;
    var n, i := 0, 0;
    while n < size - 2
      invariant n <= size - 2 && n <= |stream|
      invariant full == prefix + stream[..n]
    {
      if n == |stream| {
        return Error;
      }
      var limit := if size - 2 < |stream| then size - 2 - n else |stream| - n;
      var k := if cut(i) == 0 then 1 else if cut(i) < limit then cut(i) else limit;
      full := full + stream[n..n + k];
      n := n + k;
      i := i + 1;
    }
    result := Unserialize(full, stream[size - 2..]);
  }

  lemma U64RoundTrip(n: nat)
    requires n < U64
    ensures FromLittleEndian(LittleEndian(n, 8)) == n
  {
    LittleEndianRoundTrip(n, 8);
    EightBytes();
  }

  /** Where the fields of a serialised packet are. */
  lemma FieldsOf(p: ClientPacket)
    requires p.sender < U64
    ensures var bytes := Serialize(p);
            && SizePrefix(bytes) == FromLittleEndian(bytes[..2]) == (11 + |p.content|) % U16
            && FromLittleEndian(bytes[2..10]) == p.sender
            && bytes[10] == p.kind
            && bytes[11..] == p.content
  {
    var bytes := Serialize(p);
    var size := (11 + |p.content|) % U16;
    assert bytes[..2] == LittleEndian(size, 2);
    PrefixOf(size, bytes);
    assert bytes[2..10] == LittleEndian(p.sender, 8);
    U64RoundTrip(p.sender);
  }

  /** Reading back a serialised packet, whatever follows it on the stream: it succeeds with the same
      size, sender, type and content, leaving exactly the following bytes unread, if and only if the first read
      gets the whole prefix and the content has at most 65524 bytes. A longer one wraps the size prefix. */
  lemma FramingRoundTrip(p: ClientPacket, next: seq<byte>, whole: bool)
    requires p.sender < U64
    ensures ReadSpec(Serialize(p) + next, whole) == Read(11 + |p.content|, p, next) <==> whole && |p.content| <= 65524
  {
    var bytes := Serialize(p);
    var stream := bytes + next;
    if whole && |p.content| <= 65524 {
      FieldsOf(p);
      assert stream[..2] == bytes[..2] && SizePrefix(stream[..2]) == |bytes|;
      assert stream[2..][..|bytes| - 2] == bytes[2..] && stream[2..][|bytes| - 2..] == next;
      assert bytes[..2] + bytes[2..] == bytes;
    } else if whole {
      ReadLength(stream[..2], stream[2..]);
    } else {
      ReadLength([stream[0], 0], stream[1..]);
    }
  }

  /** The size a packet is read with: below 2^16, as in its prefix, and what is left unread. */
  lemma ReadLength(prefix: seq<byte>, stream: seq<byte>)
    requires |prefix| == 2
    ensures var r := ReadBody(prefix, stream); r.Read? ==> r.size < U16 && |r.rest| == |stream| + 2 - r.size
  {
    var r := ReadBody(prefix, stream);
    if r.Read? {
      var bytes := prefix + stream[..SizePrefix(prefix) - 2];
      assert bytes[..2] == prefix && prefix[1..] == [prefix[1]];
      assert FromLittleEndian(prefix) == prefix[0] as nat + 256 * FromLittleEndian([prefix[1]]);
      assert FromLittleEndian([prefix[1]]) == prefix[1] as nat + 256 * FromLittleEndian([]);
    }
  }

  lemma EightBytes()
    ensures Power256(8) == U64
  {
    assert Power256(4) == 0x1_0000_0000;
    assert Power256(6) == 0x1_0000_0000_0000;
  }

  lemma PrefixOf(size: nat, stream: seq<byte>)
    requires size < U16 && |stream| >= 2 && stream[..2] == LittleEndian(size, 2)
    ensures SizePrefix(stream) == size
    ensures FromLittleEndian(stream[..2]) == size
  {
    LittleEndianRoundTrip(size, 2);
    assert Power256(2) == 65536;
    var two := stream[..2];
    assert two[0] == stream[0] && two[1] == stream[1];
    assert two[1..] == [stream[1]];
    assert FromLittleEndian(two[1..]) == stream[1] as nat + 256 * FromLittleEndian([]);
  }

  // ---------------------------------------------------------------- the bytes on the wire

  lemma {:induction false} LittleEndianTake(n: nat, k: nat, j: nat)
    requires j <= k
    ensures LittleEndian(n, k)[..j] == LittleEndian(n, j)
  {
    if j > 0 {
      LittleEndianTake(n / 256, k - 1, j - 1);
    }
  }

  lemma {:induction false} LittleEndianAt(n: nat, k: nat, j: nat)
    requires j < k
    ensures LittleEndian(n, k)[j] as nat == n / Power256(j) % 256
  {
    if j > 0 {
      LittleEndianAt(n / 256, k - 1, j - 1);
      DivTwice(n, Power256(j - 1));
    }
  }

  lemma DivTwice(n: nat, p: nat)
    requires p >= 1
    ensures n / (256 * p) == n / 256 / p
  {
    var q, r := n / 256 / p, n / 256 % p;
    assert n / 256 == p * q + r;
    assert n == 256 * (p * q + r) + n % 256;
    assert n == (256 * p) * q + (256 * r + n % 256);
    UniqueQuotient(n, 256 * p, q, 256 * r + n % 256);
  }

  lemma UniqueQuotient(n: nat, m: nat, q: nat, r: nat)
    requires m >= 1 && n == m * q + r && r < m
    ensures n / m == q
  {
    var q' := n / m;
    assert n == m * q' + n % m;
    if q < q' {
      MulStep(m, q, q');
    } else if q' < q {
      MulStep(m, q', q);
    }
  }

  /** The layout of a packet: bytes 0 and 1 the size, 2 to 9 the sender, 10 the type, the content from 11 on; numbers
      with the lowest byte first. */
  lemma PacketLayout(p: ClientPacket, j: nat)
    requires j < 8
    ensures var bytes := Serialize(p);
            && bytes[0] as nat == (11 + |p.content|) % 256 && bytes[1] as nat == (11 + |p.content|) / 256 % 256
            && bytes[2 + j] as nat == p.sender / Power256(j) % 256
            && bytes[10] == p.kind && bytes[11..] == p.content
  {
    FirstBytes(p);
    LittleEndianAt(p.sender, 8, j);
    assert Serialize(p)[2..10] == LittleEndian(p.sender, 8);
    assert Serialize(p)[2 + j] == Serialize(p)[2..10][j];
  }

  lemma FirstBytes(p: ClientPacket)
    ensures var bytes, size := Serialize(p), 11 + |p.content|;
            bytes[0] as nat == size % 256 && bytes[1] as nat == size / 256 % 256
  {
    var bytes, size := Serialize(p), (11 + |p.content|) % U16;
    assert bytes[..2] == LittleEndian(size, 2);
    PrefixOf(size, bytes);
    TwoBytes(11 + |p.content|, bytes[0] as nat, bytes[1] as nat);
  }

  lemma TwoBytes(n: nat, low: nat, high: nat)
    requires low < 256 && high < 256 && high * 256 + low == n % 65536
    ensures low == n % 256 && high == n / 256 % 256
  {
    var q := n / 65536;
    assert n == 256 * (256 * q + high) + low;
    assert n / 256 == 256 * q + high;
  }

  /** The layout of a descriptor: the size, the id, the fragment count. */
  lemma ResponseLayout(r: FileResponse, padding: seq<byte>, j: nat)
    requires j < 8
    ensures var bytes := EncodeResponse(r, padding);
            && bytes[j] as nat == r.fileSize / Power256(j) % 256 && bytes[8 + j] as nat == r.fileId / Power256(j) % 256
            && bytes[16] == r.fragments
  {
    var size, id := LittleEndian(r.fileSize, 8), LittleEndian(r.fileId, 8);
    LittleEndianAt(r.fileSize, 8, j);
    LittleEndianAt(r.fileId, 8, j);
    FieldsInRow(size, id, r.fragments, padding, j);
  }

  lemma FieldsInRow(a: seq<byte>, b: seq<byte>, c: byte, rest: seq<byte>, j: nat)
    requires |a| == |b| == 8 && j < 8
    ensures (a + b + [c] + rest)[j] == a[j] && (a + b + [c] + rest)[8 + j] == b[j] && (a + b + [c] + rest)[16] == c
  {
  }

  // ---------------------------------------------------------------- whatever the client gets to read

  /** What is there to read when the packet and whatever follows it are cut off after k bytes. */
  function Cut(p: ClientPacket, next: seq<byte>, k: nat): (stream: seq<byte>)
    requires k <= 11 + |p.content| + |next|
    ensures |stream| == k
  {
    (Serialize(p) + next)[..k]
  }

  lemma SliceOfCut(a: seq<byte>, b: seq<byte>, k: nat, i: nat, j: nat)
    requires i <= j <= k <= |a + b| && j <= |a|
    ensures (a + b)[..k][i..][..j - i] == a[i..j] && (a + b)[..k][i..][j - i..] == (a + b)[j..k]
  {
  }

  /** Reading with the whole prefix, for every packet, everything that may follow it, and every place at which the
      connection may end: an error as long as fewer bytes arrive than the prefix says, which wraps at 65536; otherwise
      the sender, the type and as much of the content as the prefix says. Nothing but the wrapped sizes 9 and 10 panics,
      and a packet that fits its prefix is never read from an incomplete stream. */
  lemma ReadCut(p: ClientPacket, next: seq<byte>, k: nat)
    requires p.sender < U64 && k <= 11 + |p.content| + |next|
    ensures var size := (11 + |p.content|) % 65536;
            ReadSpec(Cut(p, next, k), true) ==
            if k < size || size < 9 then Error
            else if size < 11 then Panic
            else Read(size, ClientPacket(p.sender, p.kind, p.content[..size - 11]), (Serialize(p) + next)[size..k])
  {
    var bytes, stream := Serialize(p), Cut(p, next, k);
    var size := (11 + |p.content|) % 65536;
    FieldsOf(p);
    if k >= 2 {
      assert stream[..2] == bytes[..2] && SizePrefix(stream[..2]) == size;
      if size >= 2 && k >= size {
        SliceOfCut(bytes, next, k, 2, size);
        assert bytes[..2] + bytes[2..size] == bytes[..size];
        WholeFields(p, size);
      }
    } else if k == 1 {
      assert stream[1..] == [];
      assert bytes[..2][0] == stream[0];
      assert stream[0] as nat <= size;
    }
  }

  lemma WholeFields(p: ClientPacket, size: nat)
    requires p.sender < U64 && size <= 11 + |p.content| && size == (11 + |p.content|) % 65536
    ensures size >= 11 ==> var bytes := Serialize(p)[..size];
                           && FromLittleEndian(bytes[..2]) == size && FromLittleEndian(bytes[2..10]) == p.sender
                           && bytes[10] == p.kind && bytes[11..] == p.content[..size - 11]
  {
    FieldsOf(p);
    if size >= 11 {
      var bytes := Serialize(p);
      assert bytes[..size][..2] == bytes[..2] && bytes[..size][2..10] == bytes[2..10];
      assert bytes[..size][11..] == bytes[11..][..size - 11];
    }
  }

  /** A connection that ends before a packet is complete, if only before its first byte, is reported as an error. */
  lemma ClosedEarly(p: ClientPacket, k: nat)
    requires p.sender < U64 && |p.content| <= 65524 && k < 11 + |p.content|
    ensures ReadSpec(Serialize(p)[..k], true) == Error
  {
    ReadCut(p, [], k);
    assert Serialize(p) + [] == Serialize(p);
  }

  /** The packet that is made of another one when the first read gets one byte only: the size is the low byte alone, and
      the body starts one byte early. */
  function Shifted(p: ClientPacket): (q: ClientPacket)
  {
    var size := 11 + |p.content|;
    var low := size % 256;
    ClientPacket(size / 256 % 256 + 256 * (p.sender % 0x100_0000_0000_0000),
                 (p.sender / 0x100_0000_0000_0000 % 256) as byte,
                 if low < 12 then [] else [p.kind] + p.content[..low - 12])
  }

  /** Reading when the first read gets one byte only, for every packet, everything that may follow it, and every place
      at which the connection may end. An error if the low byte of the size is below 9, or if the stream ends before
      that many bytes less one; a panic if it is 9 or 10; otherwise a packet that was never sent, and the next one is
      read from the wrong place. */
  lemma ReadShifted(p: ClientPacket, next: seq<byte>, k: nat)
    requires p.sender < U64 && k <= 11 + |p.content| + |next|
    ensures var low := (11 + |p.content|) % 256;
            ReadSpec(Cut(p, next, k), false) ==
            if k == 0 || k + 1 < low || low < 9 then Error
            else if low < 11 then Panic
            else Read(low, Shifted(p), (Serialize(p) + next)[low - 1..k])
  {
    var bytes, stream := Serialize(p), Cut(p, next, k);
    var low := (11 + |p.content|) % 256;
    FirstBytes(p);
    if k >= 1 {
      var prefix := [stream[0], 0];
      assert stream[0] == bytes[0] && SizePrefix(prefix) == low;
      if low >= 2 && k + 1 >= low {
        SliceOfCut(bytes, next, k, 1, low - 1);
        if low >= 11 {
          ShiftedFields(p, prefix + bytes[1..low - 1]);
        }
      }
    }
  }

  lemma SevenBytes()
    ensures Power256(7) == 0x100_0000_0000_0000
  {
    assert Power256(3) == 0x100_0000;
    assert Power256(5) == 0x100_0000_0000;
  }

  lemma ShiftedFields(p: ClientPacket, bytes: seq<byte>)
    requires p.sender < U64
    requires var low := (11 + |p.content|) % 256;
             low >= 11 && |bytes| == low && bytes[0] as nat == low && bytes[1] == 0
             && bytes[2..] == Serialize(p)[1..low - 1]
    ensures Unserialize(bytes, []) == Read((11 + |p.content|) % 256, Shifted(p), [])
  {
    var low := (11 + |p.content|) % 256;
    var sent := Serialize(p);
    FirstBytes(p);
    SenderShifted(p);
    assert bytes[2..10] == bytes[2..][..8] == sent[1..9];
    assert bytes[10] == bytes[2..][8] == sent[9];
    assert bytes[11..] == bytes[2..][9..] == sent[10..low - 1];
    assert low >= 12 ==> sent[10..low - 1] == [p.kind] + p.content[..low - 12];
    LowSize(bytes[..2], low);
  }

  lemma LowSize(two: seq<byte>, low: nat)
    requires |two| == 2 && two[0] as nat == low && two[1] == 0
    ensures FromLittleEndian(two) == low
  {
    assert two[1..] == [two[1]] && two[1..][1..] == [];
    assert FromLittleEndian(two[1..]) == 0;
  }

  lemma SenderShifted(p: ClientPacket)
    requires p.sender < U64
    ensures FromLittleEndian(Serialize(p)[1..9]) == Shifted(p).sender
    ensures Serialize(p)[9] == Shifted(p).kind
  {
    FirstBytes(p);
    SevenBytes();
    SenderBytes(p);
    LittleEndianRoundTrip(p.sender, 7);
    PacketLayout(p, 7);
    var shifted := Serialize(p)[1..9];
    assert shifted[0] == Serialize(p)[1];
  }

  lemma SenderBytes(p: ClientPacket)
    ensures Serialize(p)[1..9][1..] == LittleEndian(p.sender, 7)
  {
    LittleEndianTake(p.sender, 8, 7);
    assert Serialize(p)[2..10] == LittleEndian(p.sender, 8);
    assert Serialize(p)[1..9][1..] == Serialize(p)[2..10][..7];
  }

  // ---------------------------------------------------------------- the file descriptor packet

  datatype FileResponse = FileResponse(fileSize: nat, fileId: nat, fragments: byte)

  /** Layout of xResponseRequestFile inside a packet; the union pads it with further bytes. */
  function EncodeResponse(r: FileResponse, padding: seq<byte>): (bytes: seq<byte>)
    ensures |bytes| == 17 + |padding|
  {
    LittleEndian(r.fileSize, 8) + LittleEndian(r.fileId, 8) + [r.fragments] + padding
  }

  /** Outcome of decoding: a descriptor, a reported error, or an index past the end of the slice. */
  datatype DecodeResult = Decoded(response: FileResponse) | TooShort | OutOfRange

  /** FileResponsePacket.Unserialize. Sixteen bytes pass the length test, and then the seventeenth is read. */
  function DecodeResponse(bytes: seq<byte>): DecodeResult {
    if |bytes| < 16 then TooShort
    else if |bytes| == 16 then OutOfRange
    else Decoded(FileResponse(FromLittleEndian(bytes[..8]), FromLittleEndian(bytes[8..16]), bytes[16]))
  }

  lemma DecodeEncode(r: FileResponse, padding: seq<byte>)
    requires r.fileSize < U64 && r.fileId < U64
    ensures DecodeResponse(EncodeResponse(r, padding)) == Decoded(r)
  {
    var bytes := EncodeResponse(r, padding);
    assert bytes[..8] == LittleEndian(r.fileSize, 8);
    assert bytes[8..16] == LittleEndian(r.fileId, 8);
    U64RoundTrip(r.fileSize);
    U64RoundTrip(r.fileId);
  }

  /** A descriptor cut off after k bytes: an error below sixteen, an index past the end of the slice at sixteen, and the
      descriptor itself from seventeen on. */
  lemma ResponseCut(r: FileResponse, padding: seq<byte>, k: nat)
    requires r.fileSize < U64 && r.fileId < U64 && k <= 17 + |padding|
    ensures DecodeResponse(EncodeResponse(r, padding)[..k]) ==
            if k < 16 then TooShort else if k == 16 then OutOfRange else Decoded(r)
  {
    if k >= 17 {
      assert EncodeResponse(r, padding)[..k] == EncodeResponse(r, padding[..k - 17]);
      DecodeEncode(r, padding[..k - 17]);
    }
  }

  /** The client learns from the framed descriptor exactly the size, id and fragment count sent. */
  lemma ResponseRoundTrip(r: FileResponse, padding: seq<byte>, sender: nat, kind: byte, next: seq<byte>)
    requires r.fileSize < U64 && r.fileId < U64 && sender < U64 && |padding| <= 65507
    ensures var sent := ClientPacket(sender, kind, EncodeResponse(r, padding));
            && ReadSpec(Serialize(sent) + next, true) == Read(28 + |padding|, sent, next)
            && DecodeResponse(sent.content) == Decoded(r)
  {
    var sent := ClientPacket(sender, kind, EncodeResponse(r, padding));
    assert |sent.content| == 17 + |padding|;
    FramingRoundTrip(sent, next, true);
    DecodeEncode(r, padding);
  }
}
