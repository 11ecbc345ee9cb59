/** ChunkBuffer (framework/src/kfw_web.cpp) and ChunkBufferEnumerator (framework/inc/kfw_web.hpp):
    a body collected in a linked list of fixed-size chunks. Chunks live in an arena and links are
    arena indices; memory from the allocator may hold anything, so a link never stored is wild
    unless the allocator zero-fills. */
module Chunks {

  const UINT32 := 0x1_0000_0000

  datatype Link = Null | To(index: nat) | Wild

  datatype Chunk = Chunk(next: Link, bytes: string)

  /** All bytes of a run of full chunks. */
  function Full(chunks: seq<Chunk>): string {
    if chunks == [] then "" else Full(chunks[..|chunks| - 1]) + chunks[|chunks| - 1].bytes
  }

  /** The bytes of a list whose last chunk is filled up to pos. */
  function Bytes(arena: seq<Chunk>, pos: nat): string {
    if arena == [] then ""
    else
      var last := arena[|arena| - 1].bytes;
      Full(arena[..|arena| - 1]) + (if pos <= |last| then last[..pos] else last)
  }

  /** A list in arena order; only the link of the last chunk may never have been stored. */
  ghost predicate WellLinked(zeroed: bool, arena: seq<Chunk>, size: nat) {
    && arena != []
    && (forall i | 0 <= i < |arena| :: |arena[i].bytes| == size)
    && (forall i | 0 <= i < |arena| - 1 :: arena[i].next == To(i + 1))
    && arena[|arena| - 1].next == (if |arena| == 1 || zeroed then Null else Wild)
  }

  function Appended(arena: seq<Chunk>, c: Chunk): (r: seq<Chunk>)
    requires arena != []
    ensures |r| == |arena| + 1
  {
    arena[|arena| - 1 := arena[|arena| - 1].(next := To(|arena|))] + [c]
  }

  function Overwrite(bytes: string, pos: nat, piece: string): string
    requires pos + |piece| <= |bytes|
  {
    bytes[..pos] + piece + bytes[pos + |piece|..]
  }

  function Filled(arena: seq<Chunk>, pos: nat, piece: string): (r: seq<Chunk>)
    requires arena != [] && pos + |piece| <= |arena[|arena| - 1].bytes|
    ensures |r| == |arena|
  {
    var last := |arena| - 1;
    arena[last := arena[last].(bytes := Overwrite(arena[last].bytes, pos, piece))]
  }

  lemma {:induction false} FullIgnoresLinks(a: seq<Chunk>, b: seq<Chunk>)
    requires |a| == |b| && forall i | 0 <= i < |a| :: a[i].bytes == b[i].bytes
    ensures Full(a) == Full(b)
    decreases |a|
  {
    if a != [] { FullIgnoresLinks(a[..|a| - 1], b[..|b| - 1]); }
  }

  lemma AppendedKeeps(zeroed: bool, arena: seq<Chunk>, size: nat, c: Chunk)
    requires WellLinked(zeroed, arena, size) && |c.bytes| == size && c.next == if zeroed then Null else Wild
    ensures WellLinked(zeroed, Appended(arena, c), size)
    ensures Bytes(Appended(arena, c), 0) == Bytes(arena, size)
  {
    var a, last := Appended(arena, c), arena[|arena| - 1].bytes;
    FullIgnoresLinks(a[..|a| - 1], arena);
    assert last[..size] == last;
    assert c.bytes[..0] == "";
  }

  lemma FilledExtends(zeroed: bool, arena: seq<Chunk>, size: nat, pos: nat, piece: string)
    requires WellLinked(zeroed, arena, size) && pos + |piece| <= size
    ensures WellLinked(zeroed, Filled(arena, pos, piece), size)
    ensures Bytes(Filled(arena, pos, piece), pos + |piece|) == Bytes(arena, pos) + piece
  {
    var a, last := Filled(arena, pos, piece), arena[|arena| - 1].bytes;
    assert a[..|a| - 1] == arena[..|arena| - 1];
    assert Overwrite(last, pos, piece)[..pos + |piece|] == last[..pos] + piece;
  }

  lemma {:induction false} BytesLength(zeroed: bool, arena: seq<Chunk>, size: nat, pos: nat)
    requires WellLinked(zeroed, arena, size) && pos <= size
    ensures |Bytes(arena, pos)| == (|arena| - 1) * size + pos
  {
    FullLength(arena[..|arena| - 1], size);
  }

  lemma {:induction false} FullLength(chunks: seq<Chunk>, size: nat)
    requires forall i | 0 <= i < |chunks| :: |chunks[i].bytes| == size
    ensures |Full(chunks)| == |chunks| * size
    decreases |chunks|
  {
    if chunks != [] {
      FullLength(chunks[..|chunks| - 1], size);
      assert (|chunks| - 1) * size + size == |chunks| * size;
    }
  }

  lemma Products(a: nat, b: nat, c: nat)
    requires a >= 1
    ensures (a - 1) * c + c == a * c && a * c <= (a + b) * c
  {
    assert (a + b) * c == a * c + b * c;
  }

  lemma AddMod(a: nat, b: nat)
    ensures (a % UINT32 + b) % UINT32 == (a + b) % UINT32
  {
  }

  class ChunkBuffer {
    const zeroed: bool     // the allocator zero-fills
    var heap: nat          // chunk allocations that still succeed
    var arena: seq<Chunk>
    var first: Link
    var current: Link
    var pos: nat
    var chunkSize: nat
    var total: nat

    constructor (zeroed: bool, heap: nat)
      ensures this.zeroed == zeroed && this.heap == heap && first == Null
    {
      this.zeroed, this.heap, arena, first, current, pos, chunkSize, total := zeroed, heap, [], Null, Null, 0, 0, 0;
    }

    ghost predicate Linked()
      reads this
    {
      && WellLinked(zeroed, arena, chunkSize)
      && first == To(0) && current == To(|arena| - 1) && pos <= chunkSize
      && total == |Contents()| % UINT32
    }

    /** Between calls, no chunk but the first is without bytes. */
    ghost predicate Valid()
      reads this
    {
      Linked() && (|arena| > 1 && chunkSize > 0 ==> pos > 0)
    }

    /** The bytes written so far. */
    ghost function Contents(): string
      reads this
    {
      Bytes(arena, pos)
    }

    /** How many bytes the chunks there are and the chunks there can be will hold. */
    ghost function Capacity(): nat
      reads this
    {
      (|arena| + heap) * chunkSize
    }

    /** new uint8_t[]: the bytes, and a link field that was never written, are what was there before. */
    method Allocate(size: nat, junk: char) returns (ok: bool, c: Chunk)
      modifies this`heap
      ensures ok == (old(heap) > 0) && heap == (if ok then old(heap) - 1 else old(heap))
      ensures ok ==> |c.bytes| == size && c.next == if zeroed then Null else Wild
    {
      c := Chunk(if zeroed then Null else Wild, seq(size, _ => junk));
      if heap == 0 { return false, c; }
      heap := heap - 1;
      return true, c;
    }

    method Init(size: nat, junk: char) returns (ok: bool)
      requires first == Null
      modifies this
      ensures ok == (old(heap) > 0)
      ensures ok ==> Valid() && chunkSize == size && Contents() == ""
    {
      chunkSize, pos := size, 0;
      var c;
      ok, c := Allocate(size, junk);
      if !ok { return; }
      arena := [c.(next := Null)];
      first, current, total := To(0), To(0), 0;
    }

    /** Append the data, or as much of it as memory allows. */
    method Write(data: string, junk: char) returns (ok: bool, ghost n: nat)
      requires Valid()
      modifies this
      ensures Valid() && chunkSize == old(chunkSize) && |arena| + heap == old(|arena| + heap)
      ensures n <= |data| && Contents() == old(Contents()) + data[..n]
      ensures if ok then n == |data| else n < |data| && heap == 0 && pos == chunkSize
    {
      hide Bytes;
      hide WellLinked;
      hide Appended;
      hide Filled;
      ghost var was := Contents();
      var p: nat := 0;
      assert data[..0] == "" && was + "" == was;
      while p < |data|
        invariant p <= |data| && Linked() && chunkSize == old(chunkSize) && |arena| + heap == old(|arena| + heap)
        invariant p == |data| ==> Valid()
        invariant Contents() == was + data[..p]
        decreases heap, |data| - p
      {
        LinkedIs();
        var room := chunkSize - pos;
        if room == 0 {
          var c;
          ok, c := Allocate(chunkSize, junk);
          if !ok { return false, p; }
          AppendedKeeps(zeroed, arena, chunkSize, c);
          arena := Appended(arena, c);
          current, pos := To(|arena| - 1), 0;
        } else {
          var copy := |data| - p;
          if copy > room { copy := room; }
          var piece := data[p..p + copy];
          AddMod(|Contents()|, copy);
          FilledExtends(zeroed, arena, chunkSize, pos, piece);
          arena := Filled(arena, pos, piece);
          assert was + data[..p] + piece == was + data[..p + copy] by { assert data[..p + copy] == data[..p] + piece; }
          pos, p := pos + copy, p + copy;
          total := (total + copy) % UINT32;
        }
      }
      ok, n := true, |data|;
    }

    /** The contents never exceed the capacity, and reach it when the memory is used up. */
    lemma ContentsFit()
      requires Valid()
      ensures |Contents()| <= Capacity() && (heap == 0 && pos == chunkSize ==> |Contents()| == Capacity())
    {
      BytesLength(zeroed, arena, chunkSize, pos);
      Products(|arena|, heap, chunkSize);
    }

    lemma LinkedIs()
      requires Linked()
      ensures arena != [] && |arena[|arena| - 1].bytes| == chunkSize
    {
    }
  }

  // ----- enumeration -----

  /** What the enumerator shows from a link on: one piece per chunk, or the use of a wild pointer. */
  datatype Pieces = Pieces(list: seq<string>, wild: bool)

  /** get_data and get_data_size for the chunk a link points to. */
  function Piece(arena: seq<Chunk>, pos: nat, i: nat): string
    requires i < |arena|
  {
    if i == |arena| - 1 && pos <= |arena[i].bytes| then arena[i].bytes[..pos] else arena[i].bytes
  }

  /** The loop is_end / get_data / next of the enumerator, started at chunk i. */
  function Enumerate(arena: seq<Chunk>, pos: nat, i: nat): Pieces
    requires i < |arena|
    decreases |arena| - i
  {
    match arena[i].next
    case Null => Pieces([Piece(arena, pos, i)], false)
    case Wild => Pieces([Piece(arena, pos, i)], true)
    case To(j) =>
      if i < j < |arena| then
        var r := Enumerate(arena, pos, j);
        Pieces([Piece(arena, pos, i)] + r.list, r.wild)
      else Pieces([Piece(arena, pos, i)], true)
  }

  function Join(parts: seq<string>): string {
    if parts == [] then "" else parts[0] + Join(parts[1..])
  }

  lemma {:induction false} EnumerateFrom(zeroed: bool, arena: seq<Chunk>, size: nat, pos: nat, i: nat)
    requires WellLinked(zeroed, arena, size) && pos <= size && i < |arena|
    ensures Full(arena[..i]) + Join(Enumerate(arena, pos, i).list) == Bytes(arena, pos)
    ensures Enumerate(arena, pos, i).wild <==> !zeroed && |arena| > 1
    decreases |arena| - i
  {
    hide Full;
    hide Bytes;
    var r := Enumerate(arena, pos, i);
    if i == |arena| - 1 {
      BytesOfLast(arena, pos);
      assert r.list == [Piece(arena, pos, i)] && r.list[1..] == [];
    } else {
      EnumerateFrom(zeroed, arena, size, pos, i + 1);
      FullStep(arena, i);
      var rest := Enumerate(arena, pos, i + 1).list;
      assert r.list == [arena[i].bytes] + rest && r.list[1..] == rest;
      Regroup(Full(arena[..i]), arena[i].bytes, Join(rest));
    }
  }

  lemma BytesOfLast(arena: seq<Chunk>, pos: nat)
    requires arena != []
    ensures Bytes(arena, pos) == Full(arena[..|arena| - 1]) + Piece(arena, pos, |arena| - 1)
  {
  }

  lemma FullStep(arena: seq<Chunk>, i: nat)
    requires i < |arena|
    ensures Full(arena[..i + 1]) == Full(arena[..i]) + arena[i].bytes
  {
    assert arena[..i + 1][..i] == arena[..i];
  }

  lemma Regroup(a: string, b: string, c: string)
    ensures a + (b + c) == (a + b) + c
  {
  }

  /** The enumerated pieces are the body; the walk runs into a link that was never stored iff the
      body needs more than one chunk and the allocator does not zero-fill. */
  lemma EnumerationIff(cb: ChunkBuffer)
    requires cb.Valid() && cb.chunkSize > 0
    ensures var r := Enumerate(cb.arena, cb.pos, 0);
            && Join(r.list) == cb.Contents()
            && (r.wild <==> !cb.zeroed && |cb.Contents()| > cb.chunkSize)
  {
    EnumerateFrom(cb.zeroed, cb.arena, cb.chunkSize, cb.pos, 0);
    BytesLength(cb.zeroed, cb.arena, cb.chunkSize, cb.pos);
    assert Full(cb.arena[..0]) == "";
    if |cb.arena| > 1 { assert (|cb.arena| - 1) * cb.chunkSize >= cb.chunkSize; }
  }
}
