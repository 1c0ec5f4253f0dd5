/** Constants and value types shared by every component of the store. */
module Types {

  // lib/defines.h. REDUNDANCY is 2; it is written out as 2, as the two-slot containers also do.
  const MINIMAL_SIZE_FOR_SPLIT: nat := 100
  const BUCKET_SIZE: nat := 4096

  // lib/fileserver/fs.h
  const MAX_FILES: nat := 100
  const MAX_FRAGMENTS: nat := 255

  // boot.sh: node i listens on BASE_PORT + i - 1
  const BASE_PORT: nat := 52000

  newtype byte = x: int | 0 <= x < 256

  datatype Option<+T> = None | Some(value: T)

  /** One entry of an index table: which fragment, how many bytes, on which node. */
  datatype Pointer = Pointer(fragment: nat, size: nat, node: nat)

  /** What calloc leaves in a table entry nobody has filled. */
  const BLANK: Pointer := Pointer(0, 0, 0)

  /** Address of a node. An address is its port; port 0 stands for the erased address. */
  function AddressOf(node: nat): nat {
    BASE_PORT + node - 1
  }

  /** The node that answers when an address is dialled; nobody listens below BASE_PORT. */
  function NodeAt(address: nat): (node: nat)
    ensures forall i: nat {:trigger AddressOf(i)} :: AddressOf(i) == address ==> node == i
  {
    if address < BASE_PORT then 0 else address - BASE_PORT + 1
  }

  /** Plain equality; stated for any type, it is not taken apart into maps and sequences. */
  predicate Same<T(==)>(x: T, y: T) {
    x == y
  }

  lemma SameThrough<T>(x: T, y: T, z: T)
    requires Same(x, y) && Same(y, z)
    ensures Same(x, z)
  {
  }

  lemma FrontLast<T>(s: seq<T>)
    requires s != []
    ensures s == s[..|s| - 1] + [s[|s| - 1]]
  {
  }

  lemma PrefixLast<T>(s: seq<T>, i: nat)
    requires i < |s|
    ensures s[..i + 1] == s[..i] + [s[i]] && s[..|s|] == s
  {
  }

  lemma Cons<T>(x: T, rest: seq<T>)
    ensures ([x] + rest)[0] == x && ([x] + rest)[1..] == rest
  {
  }

  lemma HeadTail<T>(a: seq<T>, b: seq<T>)
    requires a != []
    ensures (a + b)[0] == a[0] && (a + b)[1..] == a[1..] + b
  {
  }

  ghost predicate Distinct<T(!new)>(s: seq<T>) {
    forall i, j :: 0 <= i < j < |s| ==> s[i] != s[j]
  }

  /** `order` lists each of 0..n exactly once. */
  ghost predicate IsPermutation(order: seq<nat>, n: nat) {
    && |order| == n
    && (forall k :: 0 <= k < n ==> order[k] < n)
    && Distinct(order)
  }

  /** A duplicate-free list of numbers below n has at most n elements, and if it has n it misses none. */
  lemma {:induction false} PigeonHole(s: seq<nat>, n: nat)
    requires Distinct(s)
    requires forall k :: 0 <= k < |s| ==> s[k] < n
    ensures |s| <= n
    ensures |s| == n ==> forall x: nat :: x < n ==> x in s
  {
    if s == [] {
      return;
    }
    assert s[0] < n;
    if n - 1 in s {
      var j :| 0 <= j < |s| && s[j] == n - 1;
      var t := s[..j] + s[j + 1..];
      assert forall k :: 0 <= k < |t| ==> t[k] == if k < j then s[k] else s[k + 1];
      PigeonHole(t, n - 1);
      forall x: nat | x < n && |s| == n
        ensures x in s
      {
        if x < n - 1 {
          assert x in t;
        }
      }
    } else {
      forall k | 0 <= k < |s|
        ensures s[k] < n - 1
      {
        assert s[k] in s;
      }
      PigeonHole(s, n - 1);
    }
  }

  // ---------------------------------------------------------------- arithmetic

  lemma MulMonotone(q: nat, a: nat, b: nat)
    requires a <= b
    ensures q * a <= q * b
  {
    if a < b {
      assert q * b == q * a + q * (b - a);
    }
  }

  /** Remainder by repeated subtraction, which keeps the ring arithmetic linear; see RingModIsMod. */
  function RingMod(a: nat, m: nat): (r: nat)
    ensures m > 0 ==> r < m
  {
    if m == 0 || a < m then a else RingMod(a - m, m)
  }

  lemma {:induction false} RingModIsMod(a: nat, m: nat)
    requires m > 0
    ensures RingMod(a, m) == a % m
  {
    if a >= m {
      RingModIsMod(a - m, m);
      SubtractOne(a, m);
    }
  }

  lemma SubtractOne(a: nat, m: nat)
    requires 0 < m <= a
    ensures a % m == (a - m) % m
  {
    var q, r := (a - m) / m, (a - m) % m;
    assert a == m * (q + 1) + r;
    var q', r' := a / m, a % m;
    assert a == m * q' + r';
    assert m * (q' + 1) == m * q' + m;
    assert m * (q + 2) == m * (q + 1) + m;
    if q' < q + 1 {
      MulMonotone(m, q' + 1, q + 1);
    } else if q' > q + 1 {
      MulMonotone(m, q + 2, q');
    }
  }

  // ---------------------------------------------------------------- the ring

  /** Node following n on a ring. */
  function Succ(ring: nat, n: nat): nat {
    if n >= ring then 1 else n + 1
  }

  /** Node preceding n on a ring. */
  function Pred(ring: nat, n: nat): nat {
    if n <= 1 then ring else n - 1
  }

  /** i is a node of the ring. */
  predicate On(ring: nat, i: nat) {
    1 <= i <= ring
  }

  function RingNodes(ring: nat): (nodes: set<nat>)
    ensures forall i: nat :: i in nodes <==> On(ring, i)
  {
    if ring == 0 then {} else RingNodes(ring - 1) + {ring}
  }

  // ---------------------------------------------------------------- counting

  lemma {:induction false} RingNodesCount(ring: nat)
    ensures |RingNodes(ring)| == ring
  {
    if ring > 0 {
      RingNodesCount(ring - 1);
    }
  }

  lemma {:induction false} SubsetCount(x: set<nat>, y: set<nat>)
    requires x <= y
    ensures |x| <= |y|
    decreases |y|
  {
    if x != {} {
      var e :| e in x;
      SubsetCount(x - {e}, y - {e});
    }
  }

  /** A list shorter than n misses one of 1..n. */
  lemma SomeoneMissing(s: seq<nat>, n: nat) returns (i: nat)
    requires |s| < n
    ensures 1 <= i <= n && i !in s
  {
    RingNodesCount(n);
    i := Missing(RingNodes(n), Members(s));
  }

  lemma Missing(all: set<nat>, some: set<nat>) returns (i: nat)
    requires |some| < |all|
    ensures i in all && i !in some
  {
    if all <= some {
      SubsetCount(all, some);
    }
    i :| i in all && i !in some;
  }

  function Members(s: seq<nat>): (m: set<nat>)
    ensures forall x :: x in m <==> x in s
    ensures |m| <= |s|
  {
    if s == [] then {}
    else
      var front := Members(s[..|s| - 1]);
      assert s == s[..|s| - 1] + [s[|s| - 1]];
      if s[|s| - 1] in front then front else front + {s[|s| - 1]}
  }

  // ---------------------------------------------------------------- memory

  /** memcpy of some bytes into a buffer. */
  method CopyInto(buffer: array<byte>, offset: nat, part: seq<byte>)
    requires offset + |part| <= buffer.Length
    modifies buffer
    ensures buffer[..] == old(buffer[..offset]) + part + old(buffer[offset + |part|..])
  {
    for j := 0 to |part|
      invariant buffer[..offset] == old(buffer[..offset])
      invariant buffer[offset..offset + j] == part[..j]
      invariant buffer[offset + |part|..] == old(buffer[offset + |part|..])
    {
      buffer[offset + j] := part[j];
      assert buffer[offset..offset + j + 1] == buffer[offset..offset + j] + [part[j]];
    }
    assert buffer[..] == buffer[..offset] + buffer[offset..offset + |part|] + buffer[offset + |part|..];
  }
}
