/** When BufferedStream::read (framework/src/kfw_io.cpp) is exact. Each copy out of the buffer is
    capped by the size originally asked for instead of what is still missing, and a request that
    ends in a direct read returns the count of that last read only. */
module ReadExact {
  import opened NetStream

  /** The count returned is the number of bytes copied, and no more were copied than asked for. */
  predicate Exact(c: Counts, size: nat) { c.copied == c.val && c.copied <= size }

  /** Netbuf lengths are 16-bit. */
  predicate Words(pending: seq<nat>) { forall i | 0 <= i < |pending| :: pending[i] < 0x1_0000 }

  /** Exact however the network cuts the stream into netbufs. */
  ghost predicate AlwaysExact(room: nat, size: nat, buffered: nat)
    requires size > 0
  {
    forall pending | Words(pending) :: Exact(ReadCounts(room, size, buffered, size, 0, pending), size)
  }

  /** One copy satisfies the request, whatever arrives; a one-byte buffer has one more such request. */
  predicate SafeRequest(room: nat, size: nat, buffered: nat) {
    || size <= buffered
    || size == 1
    || (buffered == 0 && size > room)
    || (room == 1 && buffered == 1 && size == 2)
  }

  /** At any point of the loop: read fails only when nothing is left to read, and when it succeeds a request
      that the buffer can hold has been satisfied. */
  lemma {:induction false} ReadProgress(room: nat, size: nat, buffered: nat, remain: nat, copied: nat, pending: seq<nat>)
    requires 0 < size < UINT32 && room < UINT32 && remain < UINT32
    requires copied + remain >= size && (remain <= size || copied >= size)
    ensures var c := ReadCounts(room, size, buffered, remain, copied, pending);
            && (!c.ok ==> c.pending == [] && c.buffered == 0)
            && (c.ok && c.copied < size ==> room < size)
            && c.copied >= copied
    decreases Total(pending), buffered
  {
    if remain > 0 {
      if buffered > 0 {
        var k := Min(size, buffered);
        ReadProgress(room, size, buffered - k, Wrap32(remain - k), copied + k, pending);
      } else if remain <= room && pending != [] {
        AfterReceiveShrinks(pending, room);
        ReadProgress(room, size, Min(room, pending[0]), remain, copied, AfterReceive(pending, room));
      }
    }
  }

  /** A request that the bytes waiting cover succeeds exactly, without the base. */
  lemma BufferedIsExact(room: nat, size: nat, buffered: nat, pending: seq<nat>)
    requires 0 < size <= buffered <= room < UINT32
    ensures ReadCounts(room, size, buffered, size, 0, pending) == Counts(true, size, size, buffered - size, pending)
  {
    assert ReadCounts(room, size, buffered - size, 0, size, pending) == Counts(true, size, size, buffered - size, pending);
  }

  /** With one byte missing and an empty buffer, the next copy cannot take too much. */
  lemma {:induction false} LastByteExact(room: nat, size: nat, pending: seq<nat>)
    requires 0 < room && 0 < size < UINT32 && (size == 1 || room == 1)
    ensures Exact(ReadCounts(room, size, 0, 1, size - 1, pending), size)
    decreases |pending|
  {
    if pending != [] {
      var avail := Min(room, pending[0]);
      if avail == 0 {
        LastByteExact(room, size, pending[1..]);
      } else {
        assert Min(size, avail) == 1;
        assert ReadCounts(room, size, avail - 1, 0, size, AfterReceive(pending, room)).copied == size;
      }
    }
  }

  lemma SafeIsExact(room: nat, size: nat, buffered: nat, pending: seq<nat>)
    requires 0 < size < UINT32 && buffered <= room < UINT32 && SafeRequest(room, size, buffered)
    ensures Exact(ReadCounts(room, size, buffered, size, 0, pending), size)
  {
    if size <= buffered {
      assert ReadCounts(room, size, buffered - size, 0, size, pending).copied == size;
    } else if buffered == 0 && size > room {
    } else if size == 1 {
      LastByteExact(room, 1, pending);
    } else {
      assert ReadCounts(room, size, buffered, size, 0, pending) == ReadCounts(room, size, 0, 1, 1, pending);
      LastByteExact(room, 2, pending);
    }
  }

  /** One byte too many is copied when a refill brings more than is missing. */
  lemma RefillOverruns(room: nat, size: nat, remain: nat)
    requires 0 < remain < size < UINT32 && remain < room < UINT32
    ensures ReadCounts(room, size, 0, remain, size - remain, [remain + 1]).copied == size + 1
  {
    var c := remain + 1;
    assert AfterReceive([c], room) == [];
    assert Min(size, c) == c && Wrap32(remain - c) == UINT32 - 1;
    assert ReadCounts(room, size, c, remain, size - remain, [])
        == ReadCounts(room, size, 0, UINT32 - 1, size + 1, []);
  }

  /** A one-byte netbuf leaves one byte less missing. */
  lemma OneByteArrives(room: nat, size: nat, remain: nat, rest: seq<nat>)
    requires 1 < remain <= size < UINT32 && remain <= room < UINT32
    ensures ReadCounts(room, size, 0, remain, size - remain, [1] + rest)
         == ReadCounts(room, size, 0, remain - 1, size - remain + 1, rest)
  {
    assert AfterReceive([1] + rest, room) == rest;
    assert ReadCounts(room, size, 0, remain, size - remain, [1] + rest)
        == ReadCounts(room, size, 1, remain, size - remain, rest);
  }

  lemma UnsafeIsInexact(room: nat, size: nat, buffered: nat) returns (pending: seq<nat>)
    requires 0 < size < UINT32 && buffered <= room < 0x1_0000 && !SafeRequest(room, size, buffered)
    ensures Words(pending) && !Exact(ReadCounts(room, size, buffered, size, 0, pending), size)
  {
    var remain := size - buffered;
    if buffered > 0 {
      assert forall p :: ReadCounts(room, size, buffered, size, 0, p) == ReadCounts(room, size, 0, remain, buffered, p);
    }
    if remain > room {
      pending := [1];
    } else if buffered > 0 && remain < room {
      pending := [remain + 1];
      RefillOverruns(room, size, remain);
    } else {
      pending := [1] + [remain];
      OneByteArrives(room, size, remain, [remain]);
      RefillOverruns(room, size, remain - 1);
    }
  }

  /** read is exact for every segmentation of the stream iff the request is a safe one. */
  lemma ReadExactIff(room: nat, size: nat, buffered: nat)
    requires 0 < size < UINT32 && buffered <= room < 0x1_0000
    ensures AlwaysExact(room, size, buffered) <==> SafeRequest(room, size, buffered)
  {
    if SafeRequest(room, size, buffered) {
      forall pending | Words(pending)
        ensures Exact(ReadCounts(room, size, buffered, size, 0, pending), size)
      {
        SafeIsExact(room, size, buffered, pending);
      }
    } else {
      var pending := UnsafeIsInexact(room, size, buffered);
    }
  }
}
