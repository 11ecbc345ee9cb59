/** Descriptor rings of the Ethernet driver (src/ethernetif.c): positions, segments, and the cutting of
    a frame into buffers. */
module EthRing {
  import opened Arith

  /** A DMA descriptor with its buffer: OWN bit (set: the DMA has it), first- and last-segment bits,
      size of the segment, the frame length a receive descriptor reports, and the bytes of the buffer. */
  datatype Slot = Slot(own: bool, first: bool, last: bool, len: nat, total: nat, bytes: seq<Byte>)

  /** The data of one descriptor on its way. */
  datatype Segment = Segment(first: bool, last: bool, total: nat, bytes: seq<Byte>)

  /** The k-th descriptor from d on, around the ring of n. */
  function Idx(n: nat, d: nat, k: nat): (r: nat)
    requires d < n && k <= n
    ensures r < n
  {
    if d + k < n then d + k else d + k - n
  }

  /** Buffer2NextDescAddr */
  function NextDesc(n: nat, d: nat): nat
    requires d < n
  {
    if d + 1 < n then d + 1 else 0
  }

  /** The bytes of a pbuf chain. */
  function Concat(chain: seq<seq<Byte>>): seq<Byte> {
    if chain == [] then [] else chain[0] + Concat(chain[1..])
  }

  lemma {:induction false} ConcatAppend(a: seq<seq<Byte>>, b: seq<seq<Byte>>)
    ensures Concat(a + b) == Concat(a) + Concat(b)
    decreases |a|
  {
    if a == [] {
      assert a + b == b;
    } else {
      ConcatAppend(a[1..], b);
      assert (a + b)[1..] == a[1..] + b;
    }
  }

  /** Where the j-th buffer starts in a frame: j times the buffer size. */
  function Pos(size: nat, j: nat): nat { if j == 0 then 0 else Pos(size, j - 1) + size }

  lemma {:induction false} PosMonotone(size: nat, j: nat, k: nat)
    requires j <= k
    ensures Pos(size, j) <= Pos(size, k)
    ensures j < k ==> Pos(size, j) + size <= Pos(size, k)
    decreases k
  {
    if j < k { PosMonotone(size, j, k - 1); }
  }

  lemma PosAtMost(size: nat, n: nat, k: nat)
    ensures n <= k + 1 ==> Pos(size, n) <= Pos(size, k) + size
  {
    if n <= k + 1 { PosMonotone(size, n, k + 1); }
  }

  /** The part of a frame that goes into its j-th buffer. */
  function Part(size: nat, frame: seq<Byte>, j: nat): seq<Byte>
    requires Pos(size, j) <= |frame|
  {
    var end := Pos(size, j) + size;
    frame[Pos(size, j)..if end < |frame| then end else |frame|]
  }

  /** k + 1 buffers of the given size are just enough for the frame. */
  predicate Takes(size: nat, frame: seq<Byte>, k: nat) { Pos(size, k) < |frame| <= Pos(size, k) + size }

  /** The first n of the k + 1 segments of a frame; the last one carries a length. */
  function Cut(size: nat, frame: seq<Byte>, k: nat, total: nat, n: nat): (c: seq<Segment>)
    requires Takes(size, frame, k) && n <= k + 1
    ensures |c| == n
  {
    seq(n, j requires 0 <= j < n => PartStarts(size, frame, k, j);
           Segment(j == 0, j == k, if j == k then total else 0, Part(size, frame, j)))
  }

  lemma CutNone(size: nat, frame: seq<Byte>, k: nat, total: nat)
    requires Takes(size, frame, k)
    ensures Cut(size, frame, k, total, 0) == []
  {
  }

  lemma PartStarts(size: nat, frame: seq<Byte>, k: nat, j: nat)
    requires Takes(size, frame, k) && j <= k
    ensures Pos(size, j) <= |frame|
  {
    PosMonotone(size, j, k);
  }

  lemma CutGrows(size: nat, frame: seq<Byte>, k: nat, total: nat, n: nat)
    requires Takes(size, frame, k) && n <= k
    ensures Pos(size, n) <= |frame|
    ensures Cut(size, frame, k, total, n + 1)
         == Cut(size, frame, k, total, n) + [Segment(n == 0, n == k, if n == k then total else 0, Part(size, frame, n))]
  {
    PartStarts(size, frame, k, n);
  }

  /** memcpy into a buffer. */
  function Overwrite(bytes: seq<Byte>, offset: nat, data: seq<Byte>): (r: seq<Byte>)
    requires offset + |data| <= |bytes|
    ensures |r| == |bytes| && r[..offset] == bytes[..offset] && r[offset..offset + |data|] == data
    ensures r[..offset + |data|] == bytes[..offset] + data
  {
    bytes[..offset] + data + bytes[offset + |data|..]
  }

  // ----- a ring as a queue -----

  /** A DMA engine that does all it can whenever it gets to run. */
  ghost predicate Eager(n: nat, sched: nat -> nat) { forall i :: sched(i) >= n }

  lemma EagerAt(n: nat, sched: nat -> nat, i: nat)
    ensures Eager(n, sched) ==> sched(i) >= n
  {
  }

  function SegmentOf(s: Slot): Segment {
    Segment(s.first, s.last, s.total, if s.len <= |s.bytes| then s.bytes[..s.len] else s.bytes)
  }

  /** The slots from d on hold the queued segments, and just those have the given OWN bit. */
  ghost predicate Holds(n: nat, ring: seq<Slot>, d: nat, queue: seq<Segment>, own: bool) {
    && n > 0 && |ring| == n && d < n && |queue| <= n
    && (forall k | 0 <= k < |queue| :: ring[Idx(n, d, k)].own == own && SegmentOf(ring[Idx(n, d, k)]) == queue[k])
    && (forall k | |queue| <= k < n :: ring[Idx(n, d, k)].own != own)
  }

  lemma HoldsIs(n: nat, ring: seq<Slot>, d: nat, queue: seq<Segment>, own: bool)
    requires Holds(n, ring, d, queue, own)
    ensures |ring| == n && d < n && |queue| <= n
  {
  }

  lemma IdxShift(n: nat, d: nat, k: nat)
    requires d < n && k < n
    ensures Idx(n, NextDesc(n, d), k) == Idx(n, d, k + 1)
    ensures k > 0 ==> Idx(n, d, k) != d
  {
  }

  lemma IdxZero(n: nat, d: nat)
    requires d < n
    ensures Idx(n, d, 0) == d
  {
  }

  lemma IdxNext(n: nat, d: nat, k: nat)
    requires d < n && k < n
    ensures Idx(n, d, k + 1) == NextDesc(n, Idx(n, d, k))
  {
  }

  lemma IdxDistinct(n: nat, d: nat, j: nat, k: nat)
    requires d < n && j < k < n
    ensures Idx(n, d, j) != Idx(n, d, k)
  {
  }

  /** The first slot of a non-empty queue is recognised by its OWN bit. */
  lemma FrontOwn(n: nat, ring: seq<Slot>, d: nat, queue: seq<Segment>, own: bool)
    requires Holds(n, ring, d, queue, own)
    ensures |ring| == n && d < n && |queue| <= n
    ensures ring[d].own == own <==> queue != []
    ensures queue != [] ==> SegmentOf(ring[d]) == queue[0]
  {
    assert Idx(n, d, 0) == d;
  }

  lemma PopFront(n: nat, ring: seq<Slot>, d: nat, queue: seq<Segment>, own: bool, s: Slot)
    requires Holds(n, ring, d, queue, own) && queue != [] && s.own != own
    ensures Holds(n, ring[d := s], NextDesc(n, d), queue[1..], own)
  {
    forall k | 0 <= k < n
      ensures Idx(n, NextDesc(n, d), k) == Idx(n, d, k + 1)
      ensures k + 1 < n ==> Idx(n, d, k + 1) != d
      ensures k + 1 == n ==> Idx(n, d, k + 1) == d
    {
      IdxShift(n, d, k);
      if k + 1 < n { IdxShift(n, d, k + 1); }
    }
  }

  lemma PushBack(n: nat, ring: seq<Slot>, d: nat, queue: seq<Segment>, own: bool, s: Slot)
    requires Holds(n, ring, d, queue, own) && |queue| < n && s.own == own
    ensures ring[Idx(n, d, |queue|)].own != own
    ensures Holds(n, ring[Idx(n, d, |queue|) := s], d, queue + [SegmentOf(s)], own)
    ensures Idx(n, d, |queue| + 1) == NextDesc(n, Idx(n, d, |queue|))
  {
    forall k | 0 <= k < n && k != |queue|
      ensures Idx(n, d, k) != Idx(n, d, |queue|)
    {
      if k < |queue| { IdxDistinct(n, d, k, |queue|); } else { IdxDistinct(n, d, |queue|, k); }
    }
  }

  /** Changing the buffer of a slot that is not queued. */
  lemma Rewrite(n: nat, ring: seq<Slot>, d: nat, queue: seq<Segment>, own: bool, i: nat, bytes: seq<Byte>)
    requires Holds(n, ring, d, queue, own) && i < n && ring[i].own != own
    ensures Holds(n, ring[i := ring[i].(bytes := bytes)], d, queue, own)
  {
  }

  /** A slot k places behind the queue that does not have its OWN bit is really free. */
  lemma FreeBehind(n: nat, ring: seq<Slot>, d: nat, queue: seq<Segment>, own: bool, k: nat)
    requires Holds(n, ring, d, queue, own) && k < n
    ensures ring[Idx(n, Idx(n, d, |queue|), k)].own != own <==> |queue| + k < n
    ensures |queue| + k < n ==> Idx(n, Idx(n, d, |queue|), k) == Idx(n, d, |queue| + k)
  {
    if |queue| + k < n {
      assert Idx(n, Idx(n, d, |queue|), k) == Idx(n, d, |queue| + k);
    } else {
      assert Idx(n, Idx(n, d, |queue|), k) == Idx(n, d, |queue| + k - n);
    }
  }

  // ----- a frame laid out in buffers -----

  /** The first k buffers from d0 on, and offset bytes of the next, hold the start of the frame. */
  ghost predicate Laid(n: nat, size: nat, ring: seq<Slot>, d0: nat, frame: seq<Byte>, k: nat, offset: nat) {
    && |ring| == n && d0 < n && k < n && offset <= size && Pos(size, k) + offset <= |frame|
    && (forall i | 0 <= i < n :: |ring[i].bytes| == size)
    && (forall j | 0 <= j < k :: Pos(size, j) <= |frame| && ring[Idx(n, d0, j)].bytes == Part(size, frame, j))
    && ring[Idx(n, d0, k)].bytes[..offset] == frame[Pos(size, k)..Pos(size, k) + offset]
  }

  lemma LaidIs(n: nat, size: nat, ring: seq<Slot>, d0: nat, frame: seq<Byte>, k: nat, offset: nat)
    requires Laid(n, size, ring, d0, frame, k, offset)
    ensures |ring| == n && d0 < n && k < n && offset <= size && Pos(size, k) + offset <= |frame|
  {
  }

  lemma LaidSameBytes(n: nat, size: nat, ring: seq<Slot>, other: seq<Slot>, d0: nat, frame: seq<Byte>, k: nat, offset: nat)
    requires Laid(n, size, ring, d0, frame, k, offset) && |other| == n
    requires forall i | 0 <= i < n :: other[i].bytes == ring[i].bytes
    ensures Laid(n, size, other, d0, frame, k, offset)
  {
    hide Part;
    hide Pos;
    hide Idx;
  }

  lemma LaidFill(n: nat, size: nat, ring: seq<Slot>, d0: nat, frame: seq<Byte>, k: nat, offset: nat, data: seq<Byte>)
    requires Laid(n, size, ring, d0, frame, k, offset) && offset + |data| <= size
    requires var pos := Pos(size, k) + offset; pos + |data| <= |frame| && data == frame[pos..pos + |data|]
    ensures var d := Idx(n, d0, k);
            Laid(n, size, ring[d := ring[d].(bytes := Overwrite(ring[d].bytes, offset, data))], d0, frame, k, offset + |data|)
  {
    hide Part;
    forall j | 0 <= j < k
      ensures Idx(n, d0, j) != Idx(n, d0, k)
    {
      IdxDistinct(n, d0, j, k);
    }
    JoinSlices(frame, Pos(size, k), offset, data);
  }

  lemma JoinSlices(frame: seq<Byte>, a: nat, offset: nat, data: seq<Byte>)
    requires a + offset + |data| <= |frame| && data == frame[a + offset..a + offset + |data|]
    ensures frame[a..a + offset] + data == frame[a..a + (offset + |data|)]
  {
  }

  lemma LaidAdvance(n: nat, size: nat, ring: seq<Slot>, d0: nat, frame: seq<Byte>, k: nat)
    requires Laid(n, size, ring, d0, frame, k, size) && Pos(size, k) + size < |frame| <= Pos(size, n)
    ensures k + 1 < n && Laid(n, size, ring, d0, frame, k + 1, 0)
    ensures Idx(n, d0, k + 1) == NextDesc(n, Idx(n, d0, k))
  {
    PosAtMost(size, n, k);
    assert ring[Idx(n, d0, k)].bytes == Part(size, frame, k);
  }

  /** What a descriptor holds of a frame that is laid out to its end. */
  lemma LaidPart(n: nat, size: nat, ring: seq<Slot>, d0: nat, frame: seq<Byte>, k: nat, offset: nat, i: nat)
    requires Laid(n, size, ring, d0, frame, k, offset) && Takes(size, frame, k) && Pos(size, k) + offset == |frame| && i <= k
    ensures |ring| == n && d0 < n && k < n && offset <= size && Pos(size, i) <= |frame|
    ensures |ring[Idx(n, d0, i)].bytes| == size
    ensures ring[Idx(n, d0, i)].bytes[..if i < k then size else offset] == Part(size, frame, i)
  {
  }

  /** The number of buffers HAL_ETH_TransmitFrame computes for a frame. */
  function BufCount(size: nat, length: nat): nat
    requires size > 0
  {
    if length > size then length / size + (if length % size != 0 then 1 else 0) else 1
  }

  /** The size it computes for the last of several. */
  function LastSize(size: nat, length: nat, bufcount: nat): int { length - (bufcount - 1) * size }

  lemma LastSizeIs(size: nat, frame: seq<Byte>, k: nat, offset: nat)
    requires Pos(size, k) + offset == |frame|
    ensures LastSize(size, |frame|, k + 1) == offset
  {
    PosIs(size, k);
  }

  lemma {:induction false} PosIs(size: nat, j: nat)
    ensures Pos(size, j) == size * j
  {
    if j > 0 { PosIs(size, j - 1); }
  }

  lemma BufCountIs(size: nat, frame: seq<Byte>, k: nat)
    requires size > 0 && Takes(size, frame, k)
    ensures BufCount(size, |frame|) == k + 1
  {
    PosIs(size, k);
    CountIs(size, |frame|, k);
  }

  lemma CountIs(size: nat, length: nat, k: nat)
    requires size > 0 && size * k < length <= size * k + size
    ensures BufCount(size, length) == k + 1
  {
    if length == size * k + size {
      Distribute(size, k);
      DivModIs(length, size, k + 1, 0);
    } else {
      DivModIs(length, size, k, length - size * k);
    }
    ProductAtLeast(k, size);
  }

  lemma Distribute(size: nat, k: nat)
    ensures size * k + size == size * (k + 1)
  {
  }
}
